/**
 * The home page's projects section: which projects it shows, in what order, and how
 * each card derives its image address, description and technology badges.
 */
module Projects {
  import opened Wrappers
  import opened Text

  /** One entry of the project list, with the fields the cards read. */
  datatype Project = Project(
    title: string,
    slug: string,
    overview: Option<string>,
    summary: Option<string>,
    techStack: seq<string>,
    repoUrl: Option<string>,
    mediumUrl: Option<string>,
    demoUrl: Option<string>,
    featured: bool,
    order: int,
    date: string,
    image: Option<string>)

  /** The most projects the section shows. */
  const MaxFeatured := 6

  /** The most technology badges a card shows before summarising the rest. */
  const MaxBadges := 5

  /** The built-in project list (long descriptions shortened to their opening words). */
  const ProjectsData: seq<Project> :=
    [PortfolioWebsite, ChurnPrediction, DefectDetection, SentimentAnalysis, PredictiveMaintenance]

  const PortfolioWebsite :=
    Project("AI-Powered Portfolio Website", "portfolio-website",
      Some("Built a professional portfolio website using SpecKit and Claude Code"), None,
      ["SpecKit", "Claude Code", "React", "Vite", "Tailwind CSS", "GitHub Actions"],
      Some("https://github.com/5433shan/portfolio-web"),
      Some("https://medium.com/@sl08095433/using-spec-kit-and-claude-code-to-build-a-github-page-a0f265528840"),
      None, true, 0, "2025-10", Some("/images/projects/portfolio-website.svg"))

  const ChurnPrediction :=
    Project("Customer Churn Prediction Model", "customer-churn-prediction",
      None, Some("Built a machine learning pipeline to predict customer churn"),
      ["Python", "Scikit-learn", "XGBoost", "Docker", "FastAPI", "SMOTE"],
      Some("https://github.com/janedoe/churn-prediction"), None,
      Some("https://churn-demo.example.com"), false, 1, "2024-08", Some("/images/projects/churn-prediction.svg"))

  const DefectDetection :=
    Project("Computer Vision Defect Detection", "computer-vision-defect-detection",
      None, Some("Developed a computer vision model for manufacturing defect detection"),
      ["Python", "TensorFlow", "Keras", "OpenCV", "TensorRT", "ONNX"],
      Some("https://github.com/janedoe/defect-detection"), None,
      None, false, 3, "2024-03", Some("/images/projects/defect-detection.svg"))

  const SentimentAnalysis :=
    Project("NLP Sentiment Analysis Pipeline", "nlp-sentiment-analysis",
      None, Some("Created an NLP pipeline for real-time sentiment analysis of customer reviews"),
      ["Python", "Transformers", "BERT", "spaCy", "FastAPI", "Redis"],
      Some("https://github.com/janedoe/sentiment-analysis"), None,
      None, false, 2, "2024-05", Some("/images/projects/sentiment-analysis.svg"))

  const PredictiveMaintenance :=
    Project("Predictive Maintenance with LSTM", "predictive-maintenance-lstm",
      None, Some("Developed a time-series forecasting model using LSTM networks"),
      ["Python", "PyTorch", "LSTM", "Pandas", "NumPy", "Plotly"],
      Some("https://github.com/janedoe/predictive-maintenance"), None,
      None, false, 4, "2023-11", Some("/images/projects/predictive-maintenance.svg"))

  // ---------------------------------------------------------------- selection

  /** `.filter((p) => p.featured)`. */
  function FeaturedOnly(ps: seq<Project>): (r: seq<Project>)
    ensures forall i :: 0 <= i < |r| ==> r[i].featured
    ensures multiset(r) <= multiset(ps)
    ensures forall p :: p in ps && p.featured ==> p in r
  {
    if ps == [] then []
    else
      var rest := FeaturedOnly(ps[1..]);
      assert ps == [ps[0]] + ps[1..];
      if ps[0].featured then [ps[0]] + rest else rest
  }

  predicate SortedByOrder(ps: seq<Project>) {
    forall i, j :: 0 <= i < j < |ps| ==> ps[i].order <= ps[j].order
  }

  /** The projects of `ps` whose order is `k`, in their order in `ps`. */
  function WithOrder(ps: seq<Project>, k: int): seq<Project> {
    if ps == [] then []
    else (if ps[0].order == k then [ps[0]] else []) + WithOrder(ps[1..], k)
  }

  /** Place `p` in front of the first project whose order is not smaller. */
  function InsertByOrder(p: Project, ps: seq<Project>): (r: seq<Project>)
    ensures |r| == |ps| + 1
  {
    if ps == [] || p.order <= ps[0].order then [p] + ps
    else [ps[0]] + InsertByOrder(p, ps[1..])
  }

  /** Inserting adds `p` and keeps every other project. */
  lemma {:induction false} InsertIsPermutation(p: Project, ps: seq<Project>)
    ensures multiset(InsertByOrder(p, ps)) == multiset(ps) + multiset{p}
  {
    if ps != [] && p.order > ps[0].order {
      InsertIsPermutation(p, ps[1..]);
      assert ps == [ps[0]] + ps[1..];
    }
  }

  /**
   * `.sort((a, b) => a.order - b.order)`, a stable sort: an insertion sort that puts
   * each project in front of the later ones of equal order.
   */
  function SortByOrder(ps: seq<Project>): (r: seq<Project>)
    ensures |r| == |ps|
  {
    if ps == [] then [] else InsertByOrder(ps[0], SortByOrder(ps[1..]))
  }

  /** `.slice(0, 6)`. */
  function Cap(ps: seq<Project>): (r: seq<Project>)
    ensures |r| == Min(|ps|, MaxFeatured) && r == ps[..|r|]
  {
    if |ps| <= MaxFeatured then ps else ps[..MaxFeatured]
  }

  /** The pipeline in `loadProjects`: featured projects, by order, at most six. */
  function FeaturedProjects(ps: seq<Project>): seq<Project> {
    Cap(SortByOrder(FeaturedOnly(ps)))
  }

  lemma {:induction false} InsertKeepsSorted(p: Project, ps: seq<Project>)
    requires SortedByOrder(ps)
    ensures SortedByOrder(InsertByOrder(p, ps))
    ensures forall i :: 0 <= i < |InsertByOrder(p, ps)| ==>
      InsertByOrder(p, ps)[i] == p || InsertByOrder(p, ps)[i] in ps
  {
    if ps != [] && p.order > ps[0].order {
      InsertKeepsSorted(p, ps[1..]);
      var rest := InsertByOrder(p, ps[1..]);
      assert forall i :: 0 <= i < |rest| ==> rest[i] == p || rest[i] in ps[1..];
      assert forall i :: 0 <= i < |rest| ==> ps[0].order <= rest[i].order;
    }
  }

  /** The sort's result is ordered by `order`. */
  lemma {:induction false} SortIsSorted(ps: seq<Project>)
    ensures SortedByOrder(SortByOrder(ps))
  {
    if ps != [] {
      SortIsSorted(ps[1..]);
      InsertKeepsSorted(ps[0], SortByOrder(ps[1..]));
    }
  }

  /** The sort's result holds the same projects, each as often. */
  lemma {:induction false} SortIsPermutation(ps: seq<Project>)
    ensures multiset(SortByOrder(ps)) == multiset(ps)
  {
    if ps != [] {
      SortIsPermutation(ps[1..]);
      InsertIsPermutation(ps[0], SortByOrder(ps[1..]));
      assert ps == [ps[0]] + ps[1..];
    }
  }

  lemma WithOrderAppend(a: seq<Project>, b: seq<Project>, k: int)
    ensures WithOrder(a + b, k) == WithOrder(a, k) + WithOrder(b, k)
  {
    if a != [] {
      assert (a + b)[1..] == a[1..] + b;
      WithOrderAppend(a[1..], b, k);
    } else {
      assert a + b == b;
    }
  }

  /** Inserting into a sorted list puts `p` ahead of the projects of equal order already there. */
  lemma {:induction false} InsertIsStable(p: Project, ps: seq<Project>, k: int)
    requires SortedByOrder(ps)
    ensures WithOrder(InsertByOrder(p, ps), k) == (if p.order == k then [p] else []) + WithOrder(ps, k)
  {
    if ps == [] || p.order <= ps[0].order {
      WithOrderAppend([p], ps, k);
    } else {
      InsertIsStable(p, ps[1..], k);
      assert InsertByOrder(p, ps) == [ps[0]] + InsertByOrder(p, ps[1..]);
      WithOrderAppend([ps[0]], InsertByOrder(p, ps[1..]), k);
      WithOrderAppend([ps[0]], ps[1..], k);
      assert ps == [ps[0]] + ps[1..];
      if p.order == k {
        assert ps[0].order < k;
      }
    }
  }

  /** Stability: projects of equal order keep their relative order. */
  lemma {:induction false} SortIsStable(ps: seq<Project>, k: int)
    ensures WithOrder(SortByOrder(ps), k) == WithOrder(ps, k)
  {
    if ps != [] {
      SortIsStable(ps[1..], k);
      SortIsSorted(ps[1..]);
      InsertIsStable(ps[0], SortByOrder(ps[1..]), k);
    }
  }

  /**
   * What the section shows is ordered by `order` and is the first six (or all) of the
   * stably sorted featured list, so no featured project left out has a smaller order
   * than one shown.
   */
  lemma FeaturedSelectionOrder(ps: seq<Project>)
    ensures var r := FeaturedProjects(ps);
      var sorted := SortByOrder(FeaturedOnly(ps));
      && SortedByOrder(r)
      && |r| == Min(|FeaturedOnly(ps)|, MaxFeatured)
      && r == sorted[..|r|]
      && (forall i, j :: 0 <= i < |r| <= j < |sorted| ==> r[i].order <= sorted[j].order)
  {
    var sorted := SortByOrder(FeaturedOnly(ps));
    SortIsSorted(FeaturedOnly(ps));
    var r := FeaturedProjects(ps);
    assert forall i :: 0 <= i < |r| ==> r[i] == sorted[i];
  }

  /** Only featured projects of the list are shown. */
  lemma FeaturedSelectionMembers(ps: seq<Project>)
    ensures var r := FeaturedProjects(ps);
      forall i :: 0 <= i < |r| ==> r[i].featured && r[i] in ps
  {
    var featured := FeaturedOnly(ps);
    var sorted := SortByOrder(featured);
    SortIsPermutation(featured);
    var r := FeaturedProjects(ps);
    forall i | 0 <= i < |r| ensures r[i].featured && r[i] in ps {
      assert r[i] == sorted[i];
      assert r[i] in multiset(sorted);
      assert r[i] in multiset(ps);
      assert r[i] in featured;
    }
  }

  /** The filter keeps each featured project as many times as it is listed, and no other project. */
  lemma {:induction false} FeaturedOnlyCounts(ps: seq<Project>)
    ensures forall p :: multiset(FeaturedOnly(ps))[p] == (if p.featured then multiset(ps)[p] else 0)
  {
    if ps != [] {
      FeaturedOnlyCounts(ps[1..]);
      assert ps == [ps[0]] + ps[1..];
      assert multiset(ps) == multiset{ps[0]} + multiset(ps[1..]);
    }
  }

  /** Filtering a concatenation filters each part, so the kept projects stay in listed order. */
  lemma {:induction false} FeaturedOnlyAppend(a: seq<Project>, b: seq<Project>)
    ensures FeaturedOnly(a + b) == FeaturedOnly(a) + FeaturedOnly(b)
  {
    if a == [] {
      assert a + b == b;
    } else {
      assert (a + b)[0] == a[0];
      assert (a + b)[1..] == a[1..] + b;
      FeaturedOnlyAppend(a[1..], b);
    }
  }

  /** Keeping the featured projects and picking out one `order` value can be done in either order. */
  lemma {:induction false} FeaturedOnlyWithOrder(ps: seq<Project>, k: int)
    ensures WithOrder(FeaturedOnly(ps), k) == FeaturedOnly(WithOrder(ps, k))
  {
    if ps != [] {
      FeaturedOnlyWithOrder(ps[1..], k);
      var head := if ps[0].order == k then [ps[0]] else [];
      assert FeaturedOnly(head) == (if ps[0].featured then head else []) by {
        if head != [] { assert head[1..] == []; }
      }
      FeaturedOnlyAppend(head, WithOrder(ps[1..], k));
      if ps[0].featured {
        WithOrderAppend([ps[0]], FeaturedOnly(ps[1..]), k);
        assert [ps[0]][1..] == [];
      }
    }
  }

  /**
   * The featured projects of one `order` value appear in the sorted featured list in
   * the order they are listed in: the filter and the sort are both stable.
   */
  lemma FeaturedSelectionStable(ps: seq<Project>, k: int)
    ensures WithOrder(SortByOrder(FeaturedOnly(ps)), k) == FeaturedOnly(WithOrder(ps, k))
  {
    SortIsStable(FeaturedOnly(ps), k);
    FeaturedOnlyWithOrder(ps, k);
  }

  /** A list without featured projects shows nothing. */
  lemma {:induction false} NoneFeatured(ps: seq<Project>)
    requires forall i :: 0 <= i < |ps| ==> !ps[i].featured
    ensures FeaturedOnly(ps) == []
  {
    if ps != [] {
      NoneFeatured(ps[1..]);
    }
  }

  /** Of the built-in projects only the portfolio website is featured, so it is the only one shown. */
  lemma FeaturedOfBuiltInData()
    ensures FeaturedProjects(ProjectsData) == [PortfolioWebsite]
  {
    var ps := ProjectsData;
    NoneFeatured(ps[1..]);
    assert FeaturedOnly(ps) == [ps[0]];
  }

  /** The section's state: the projects it shows and whether they are still loading. */
  class ProjectsSection {
    var projects: seq<Project>
    var loading: bool

    /** Before loading: no projects, and the loading placeholders on screen. */
    constructor()
      ensures projects == [] && loading
    {
      projects := [];
      loading := true;
    }

    /**
     * `loadProjects`: select from the project list and end the loading state. The
     * component reads the built-in `ProjectsData`; here the list is a parameter.
     */
    method LoadProjects(data: seq<Project>)
      modifies this
      ensures projects == FeaturedProjects(data)
      ensures |projects| <= MaxFeatured && SortedByOrder(projects)
      ensures forall i :: 0 <= i < |projects| ==> projects[i].featured && projects[i] in data
      ensures !loading
    {
      var featuredProjects := Cap(SortByOrder(FeaturedOnly(data)));
      FeaturedSelectionOrder(data);
      FeaturedSelectionMembers(data);
      projects := featuredProjects;
      loading := false;
    }
  }

  // -------------------------------------------------------------------- cards

  datatype BadgeVariant = Primary | Neutral

  datatype Badge = Badge(text: string, variant: BadgeVariant)

  /**
   * The badge row of a card: the first five technologies as primary badges, then one
   * neutral `+N` badge counting the rest when there are more than five.
   */
  function TechBadges(techStack: seq<string>): (badges: seq<Badge>)
    ensures |badges| == Min(|techStack|, MaxBadges) + (if |techStack| > MaxBadges then 1 else 0)
  {
    var shown := techStack[..Min(|techStack|, MaxBadges)];
    var primary := seq(|shown|, i requires 0 <= i < |shown| => Badge(shown[i], Primary));
    if |techStack| > MaxBadges then primary + [Badge("+" + NatToString(|techStack| - MaxBadges), Neutral)]
    else primary
  }

  /**
   * The badges account for every technology: the primary badges name the first
   * min(5, n) entries in order, and an overflow badge exists exactly when n > 5, its
   * number being the count of the technologies left unnamed.
   */
  lemma TechBadgesCount(techStack: seq<string>)
    ensures var badges := TechBadges(techStack);
      var named := Min(|techStack|, MaxBadges);
      && (forall i :: 0 <= i < named ==> badges[i] == Badge(techStack[i], Primary))
      && (|techStack| > MaxBadges <==> |badges| == named + 1)
      && (|techStack| > MaxBadges ==>
            && badges[named].variant == Neutral
            && badges[named].text[..1] == "+"
            && ParseInt(badges[named].text[1..]) == Some(|techStack| - named))
  {
    if |techStack| > MaxBadges {
      var text := TechBadges(techStack)[MaxBadges].text;
      var digits := NatToString(|techStack| - MaxBadges);
      assert text[1..] == digits;
      ParseIntOfDigits(digits);
      NatToStringRoundTrip(|techStack| - MaxBadges);
    }
  }

  /** `path.replace(/^\//, '')`: drop one leading slash, if there is one. */
  function StripLeadingSlash(path: string): (r: string)
    ensures path == r || path == "/" + r
    ensures |path| - 1 <= |r| <= |path|
  {
    if |path| > 0 && path[0] == '/' then path[1..] else path
  }

  /** Exactly one slash is removed, so a doubled slash keeps the second; paths without one pass unchanged. */
  lemma StripLeadingSlashExact(rest: string)
    ensures StripLeadingSlash("/" + rest) == rest
    ensures |rest| > 0 && rest[0] != '/' ==> StripLeadingSlash(rest) == rest
  {
  }

  /** A card's picture: shown only for a non-empty image path, under the site's base address. */
  function CardImageSrc(baseUrl: string, p: Project): (src: Option<string>)
    ensures src.Some? <==> p.image.Some? && p.image.value != ""
    ensures src.Some? ==> src.value == baseUrl + StripLeadingSlash(p.image.value)
  {
    if p.image.Some? && p.image.value != "" then Some(baseUrl + StripLeadingSlash(p.image.value)) else None
  }

  /** Where a site-relative image ends up: the base address followed by the path without its slash. */
  lemma CardImageUnderBase(baseUrl: string, p: Project, path: string)
    requires p.image == Some("/" + path)
    ensures CardImageSrc(baseUrl, p) == Some(baseUrl + path)
  {
    StripLeadingSlashExact(path);
  }

  /** `project.overview || project.summary`. */
  function Description(p: Project): (d: Option<string>)
    ensures p.overview.Some? && p.overview.value != "" ==> d == p.overview
    ensures !(p.overview.Some? && p.overview.value != "") ==> d == p.summary
  {
    if p.overview.Some? && p.overview.value != "" then p.overview else p.summary
  }

  /** The path prefix of the project detail route `/projects/:slug`. */
  const ProjectsRoute := "/projects/"

  /** The route a card opens: the detail route, whose `:slug` part is the project's slug. */
  function CardLink(p: Project): (r: string)
    ensures |r| == |ProjectsRoute| + |p.slug|
    ensures r[..|ProjectsRoute|] == ProjectsRoute && r[|ProjectsRoute|..] == p.slug
  {
    ProjectsRoute + p.slug
  }

  /** Two cards open the same route exactly when their projects share a slug. */
  lemma CardLinkInjective(p: Project, q: Project)
    ensures CardLink(p) == CardLink(q) <==> p.slug == q.slug
  {
    if CardLink(p) == CardLink(q) {
      assert p.slug == CardLink(p)[|ProjectsRoute|..];
    }
  }
}
