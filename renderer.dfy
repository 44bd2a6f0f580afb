/**
 * The element overrides the Markdown renderer installs: images load lazily, code is
 * shown inline or as a highlighted block with a language taken from its class name,
 * and links that point off the site open in a new tab.
 */
module Renderer {
  import opened Wrappers
  import opened Text

  /** What an override renders, with the attributes the policies decide. */
  datatype Element =
    | Image(src: Option<string>, alt: Option<string>, loading: string)
    | InlineCode(code: string)
    | CodeBlock(language: string, code: string)
    | Link(href: Option<string>, target: Option<string>, rel: Option<string>, text: string)

  // ------------------------------------------------------------------ images

  /** The `img` override: the same source and text, loaded lazily. */
  function RenderImage(src: Option<string>, alt: Option<string>): (e: Element)
    ensures e.Image? && e.src == src && e.alt == alt && e.loading == "lazy"
  {
    Image(src, alt, "lazy")
  }

  // -------------------------------------------------------------------- code

  const LanguagePrefix := "language-"

  /** `language-(\w+)` matches at `i`: the prefix and at least one word character. */
  predicate LanguageAt(s: string, i: nat) {
    i + |LanguagePrefix| < |s| && s[i..i + |LanguagePrefix|] == LanguagePrefix && IsWordChar(s[i + |LanguagePrefix|])
  }

  /** The first position from `i` on where `language-(\w+)` matches. */
  function FindLanguage(s: string, i: nat): (j: Option<nat>)
    requires i <= |s|
    ensures j.Some? ==> i <= j.value < |s| && LanguageAt(s, j.value)
    ensures j.Some? ==> forall k :: i <= k < j.value ==> !LanguageAt(s, k)
    ensures j.None? ==> forall k :: i <= k ==> !LanguageAt(s, k)
    decreases |s| - i
  {
    if LanguageAt(s, i) then Some(i)
    else if i == |s| then None
    else FindLanguage(s, i + 1)
  }

  /** The end of the run of word characters starting at `q`. */
  function WordRunEnd(s: string, q: nat): (e: nat)
    requires q <= |s|
    ensures q <= e <= |s|
    ensures forall k :: q <= k < e ==> IsWordChar(s[k])
    ensures e < |s| ==> !IsWordChar(s[e])
    decreases |s| - q
  {
    if q < |s| && IsWordChar(s[q]) then WordRunEnd(s, q + 1) else q
  }

  /** `className || ''`. */
  function ClassText(className: Option<string>): string {
    if className.None? then "" else className.value
  }

  /** The language of a code element: group 1 of the first `language-(\w+)` match in its class, or `''`. */
  function LanguageOf(className: Option<string>): string {
    var s := ClassText(className);
    match FindLanguage(s, 0)
    case None => ""
    case Some(j) => s[j + |LanguagePrefix|..WordRunEnd(s, j + |LanguagePrefix|)]
  }

  /** The language is empty exactly when no `language-` in the class is followed by a word character. */
  lemma LanguageEmptyIffNoMatch(className: Option<string>)
    ensures LanguageOf(className) == "" <==>
      forall k :: 0 <= k <= |ClassText(className)| ==> !LanguageAt(ClassText(className), k)
  {
    var s := ClassText(className);
    match FindLanguage(s, 0)
    case None =>
    case Some(j) =>
      var start := j + |LanguagePrefix|;
      assert LanguageOf(className)[0] == s[start];
  }

  /**
   * Otherwise it is the whole run of word characters after the first `language-`
   * that has one: it sits right after that prefix and the character after it, if
   * any, is not a word character.
   */
  lemma LanguageIsFirstWordRun(className: Option<string>, j: nat)
    requires FindLanguage(ClassText(className), 0) == Some(j)
    ensures forall k :: 0 <= k < j ==> !LanguageAt(ClassText(className), k)
    ensures var s, lang, start := ClassText(className), LanguageOf(className), j + |LanguagePrefix|;
      && start + |lang| <= |s| && s[start..start + |lang|] == lang
      && (forall k :: 0 <= k < |lang| ==> IsWordChar(lang[k]))
      && (start + |lang| == |s| || !IsWordChar(s[start + |lang|]))
  {
    var s := ClassText(className);
    var start := j + |LanguagePrefix|;
    var lang := LanguageOf(className);
    assert lang == s[start..WordRunEnd(s, start)];
    assert forall k :: 0 <= k < |lang| ==> lang[k] == s[start + k];
  }

  /** `language-` followed by a word and nothing else: the language is that word. */
  lemma LanguageOfSimpleClass(word: string)
    requires word != [] && forall k :: 0 <= k < |word| ==> IsWordChar(word[k])
    ensures LanguageOf(Some(LanguagePrefix + word)) == word
  {
    var s := LanguagePrefix + word;
    assert s[0..|LanguagePrefix|] == LanguagePrefix;
    assert s[|LanguagePrefix|] == word[0];
    assert LanguageAt(s, 0);
    assert forall k :: |LanguagePrefix| <= k < |s| ==> s[k] == word[k - |LanguagePrefix|];
    assert WordRunEnd(s, |LanguagePrefix|) == |s|;
    assert s[|LanguagePrefix|..] == word;
  }

  /** `text.replace(/\n$/, '')`: drop one newline at the very end, if there is one. */
  function StripTrailingNewline(text: string): (r: string)
    ensures r == text || r + "\n" == text
  {
    if |text| > 0 && text[|text| - 1] == '\n' then text[..|text| - 1] else text
  }

  /** Exactly one newline goes, even when the text ends with several; other text is untouched. */
  lemma StripTrailingNewlineExact(text: string)
    ensures StripTrailingNewline(text + "\n") == text
    ensures (text == [] || text[|text| - 1] != '\n') ==> StripTrailingNewline(text) == text
  {
    assert (text + "\n")[..|text|] == text;
  }

  /**
   * The `code` override: inline code keeps its text as it is and never becomes a
   * block; a block goes to the highlighter with its language and all of its text
   * but a final newline.
   */
  function RenderCode(inline: bool, className: Option<string>, children: string): (e: Element)
    ensures inline <==> e.InlineCode?
    ensures inline ==> e.code == children
    ensures !inline ==> e.CodeBlock? && e.language == LanguageOf(className)
    ensures !inline ==> e.code == StripTrailingNewline(children)
  {
    if inline then InlineCode(children)
    else CodeBlock(LanguageOf(className), StripTrailingNewline(children))
  }

  // ------------------------------------------------------------------- links

  /** `href?.startsWith('http')`: an absent address is not external. */
  predicate IsExternal(href: Option<string>) {
    href.Some? && StartsWith(href.value, "http")
  }

  /**
   * The `a` override: a link gets `target` and `rel` exactly when its address starts
   * with `http`, and then opens in a new tab without giving the new page access to
   * this one; the address and text pass through.
   */
  function RenderLink(href: Option<string>, text: string): (e: Element)
    ensures e.Link? && e.href == href && e.text == text
    ensures e.target.Some? <==> href.Some? && |href.value| >= 4 && href.value[..4] == "http"
    ensures e.target.Some? <==> e.rel.Some?
    ensures e.target.Some? ==> e.target == Some("_blank") && e.rel == Some("noopener noreferrer")
  {
    if IsExternal(href) then Link(href, Some("_blank"), Some("noopener noreferrer"), text)
    else Link(href, None, None, text)
  }
}
