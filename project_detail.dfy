/**
 * The project page: find the Markdown file named after the page's slug among the
 * bundled project files, parse it, and show its front matter and body, or an error.
 * The bundled files are given as (path, raw text) pairs in their listing order; the
 * front-matter parser is a parameter (`None` where it throws).
 */
module ProjectDetail {
  import opened Wrappers
  import opened Text
  import opened Markdown

  const NotFoundMessage := "Project not found"
  const LoadFailedMessage := "Failed to load project"
  const MdExtension := ".md"

  /** `.md` occurs in `s` at position `k`. */
  predicate MdAt(s: string, k: nat) {
    k + |MdExtension| <= |s| && s[k] == '.' && s[k + 1] == 'm' && s[k + 2] == 'd'
  }

  /** The first position from `from` on where `.md` occurs, or `None`. */
  function FindMd(s: string, from: nat): (i: Option<nat>)
    requires from <= |s|
    ensures i.Some? ==> from <= i.value && MdAt(s, i.value)
    ensures i.Some? ==> forall k :: from <= k < i.value ==> !MdAt(s, k)
    ensures i.None? ==> forall k :: from <= k ==> !MdAt(s, k)
    decreases |s| - from
  {
    if from + |MdExtension| > |s| then None
    else if MdAt(s, from) then Some(from)
    else FindMd(s, from + 1)
  }

  /** `s.replace('.md', '')` with a string pattern: only the first occurrence goes. */
  function RemoveFirstMd(s: string): (r: string)
    ensures FindMd(s, 0).None? ==> r == s
    ensures FindMd(s, 0).Some? ==> var i := FindMd(s, 0).value; r == s[..i] + s[i + |MdExtension|..]
  {
    match FindMd(s, 0)
    case None => s
    case Some(i) => s[..i] + s[i + |MdExtension|..]
  }

  /** `path.split('/').pop().replace('.md', '')`. */
  function FileName(path: string): string {
    RemoveFirstMd(Last(SplitOn(path, '/')))
  }

  /** The last `/`-separated piece of `<dir>/<file>` is `file` when `file` has no `/`. */
  lemma LastPieceOfPath(dir: string, file: string)
    requires '/' !in file
    ensures Last(SplitOn(dir + ['/'] + file, '/')) == file
  {
    SplitAround(dir, file, '/');
    SplitWithoutSep(file, '/');
  }

  /** In `<name>.md`, with no `.md` inside the name, the first `.md` is the extension. */
  lemma FirstMdIsExtension(name: string)
    requires forall k :: !MdAt(name, k)
    ensures FindMd(name + MdExtension, 0) == Some(|name|)
  {
    var file := name + MdExtension;
    var i := |name|;
    assert MdAt(file, i);
    forall k | 0 <= k < i ensures !MdAt(file, k) {
      if k + 3 <= i {
        assert !MdAt(name, k);
      } else if k + 2 == i {
        assert file[k + 2] == '.';
      } else {
        assert file[k + 1] == '.';
      }
    }
  }

  /**
   * A file `<dir>/<name>.md` is found under `<name>`, as long as the name has no `/`
   * and no `.md` of its own.
   */
  lemma FileNameOfPath(dir: string, name: string)
    requires '/' !in name && forall k :: !MdAt(name, k)
    ensures FileName(dir + "/" + name + MdExtension) == name
  {
    var file := name + MdExtension;
    assert '/' !in file by {
      forall k | 0 <= k < |file| ensures file[k] != '/' {
        if k < |name| { assert file[k] == name[k]; }
      }
    }
    LastPieceOfPath(dir, file);
    assert dir + "/" + name + MdExtension == dir + ['/'] + file;
    FirstMdIsExtension(name);
    assert file[..|name|] == name;
  }

  /** The position of the first file whose name is `slug`, or the number of files when there is none. */
  function FirstMatchIndex(files: seq<(string, string)>, slug: string): (i: nat)
    ensures i <= |files|
    ensures forall j :: 0 <= j < i ==> FileName(files[j].0) != slug
    ensures i < |files| ==> FileName(files[i].0) == slug
  {
    if files == [] then 0
    else if FileName(files[0].0) == slug then 0
    else 1 + FirstMatchIndex(files[1..], slug)
  }

  /** The raw text of the first file named `slug`: a later file of the same name is never used. */
  function MatchingContent(files: seq<(string, string)>, slug: string): Option<string> {
    var i := FirstMatchIndex(files, slug);
    if i < |files| then Some(files[i].1) else None
  }

  /**
   * The `for ... of` scan with `break` in `loadProject`: walk the files in order and
   * stop at the first whose name is the slug.
   */
  method FindProjectContent(files: seq<(string, string)>, slug: string) returns (projectContent: Option<string>)
    ensures projectContent.Some? <==> exists j :: 0 <= j < |files| && FileName(files[j].0) == slug
    ensures projectContent.Some? ==>
      exists j :: (0 <= j < |files| && FileName(files[j].0) == slug && projectContent.value == files[j].1
                   && forall k :: 0 <= k < j ==> FileName(files[k].0) != slug)
    ensures projectContent == MatchingContent(files, slug)
  {
    projectContent := None;
    var n := 0;
    while n < |files|
      invariant n <= |files|
      invariant projectContent.None? ==> forall k :: 0 <= k < n ==> FileName(files[k].0) != slug
      invariant projectContent.None? ==> n <= FirstMatchIndex(files, slug)
      invariant projectContent.Some? ==>
        n < |files| && projectContent.value == files[n].1 && FileName(files[n].0) == slug && n == FirstMatchIndex(files, slug)
    {
      var (path, content) := files[n];
      var filename := FileName(path);
      if filename == slug {
        projectContent := Some(content);
        break;
      }
      n := n + 1;
    }
  }

  /** `{ ...frontmatter, content }`: the front-matter fields, with `content` set to the body whatever the front matter said. */
  function ProjectRecord(parsed: ParsedMarkdown): (project: FrontMatter)
    ensures "content" in project && project["content"] == Str(parsed.content)
    ensures forall key :: key != "content" ==> (key in project <==> key in parsed.frontmatter)
    ensures forall key :: key != "content" && key in project ==> project[key] == parsed.frontmatter[key]
  {
    parsed.frontmatter["content" := Str(parsed.content)]
  }

  /** The project page's state. */
  class ProjectDetailPage {
    var project: Option<FrontMatter>
    var loading: bool
    var error: Option<string>

    /** Before the first load: no project, loading, no error. */
    constructor()
      ensures project == None && loading && error == None
    {
      project := None;
      loading := true;
      error := None;
    }

    /**
     * `loadProject`: an empty or missing file reports "Project not found", a parser
     * failure reports "Failed to load project", and either way the project shown
     * before stays; otherwise the parsed project replaces it and the error is
     * cleared. Loading always ends.
     */
    method LoadProject(slug: string, files: seq<(string, string)>, matter: string -> Option<(FrontMatter, string)>)
      modifies this
      ensures !loading
      ensures var found := MatchingContent(files, slug);
        && (found.None? || found.value == "" ==> error == Some(NotFoundMessage) && project == old(project))
        && (found.Some? && found.value != "" && ParseMarkdown(found.value, matter).None? ==>
              error == Some(LoadFailedMessage) && project == old(project))
        && (found.Some? && found.value != "" && ParseMarkdown(found.value, matter).Some? ==>
              error == None && project == Some(ProjectRecord(ParseMarkdown(found.value, matter).value)))
    {
      loading := true;
      error := None;

      var projectContent := FindProjectContent(files, slug);
      if projectContent.None? || projectContent.value == "" {
        error := Some(NotFoundMessage);
        loading := false;
        return;
      }

      var parsed := ParseMarkdown(projectContent.value, matter);
      if parsed.None? {
        error := Some(LoadFailedMessage);
      } else {
        project := Some(ProjectRecord(parsed.value));
      }
      loading := false;
    }
  }

  /** Files listed after the first one named `slug` never change what the page loads. */
  lemma LoadOutcomeDependsOnFirstMatch(files: seq<(string, string)>, extra: seq<(string, string)>, slug: string)
    requires MatchingContent(files, slug).Some?
    ensures MatchingContent(files + extra, slug) == MatchingContent(files, slug)
  {
    var i := FirstMatchIndex(files, slug);
    FirstMatchIndexPrefix(files, extra, slug);
    assert (files + extra)[i] == files[i];
  }

  lemma {:induction false} FirstMatchIndexPrefix(files: seq<(string, string)>, extra: seq<(string, string)>, slug: string)
    requires FirstMatchIndex(files, slug) < |files|
    ensures FirstMatchIndex(files + extra, slug) == FirstMatchIndex(files, slug)
  {
    if FileName(files[0].0) != slug {
      assert (files + extra)[1..] == files[1..] + extra;
      FirstMatchIndexPrefix(files[1..], extra, slug);
    }
  }
}
