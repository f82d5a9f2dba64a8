/**
  The projects section: a grid of full "featured" cards and a grid of compact cards
  for the rest. A compact card lists at most three technologies and a "+N" badge for
  the ones it leaves out.
*/
module Projects {
  import opened Options

  datatype Stats = Stats(stars: nat, forks: nat)

  /** A project entry. The description, image URL and links are display-only text
      that no logic reads, and are left out. */
  datatype Project = Project(
    title: string,
    technologies: seq<string>,
    featured: bool,
    stats: Stats)

  /** `projects.filter(p => p.featured == flag)`, in list order. */
  function WithFlag(ps: seq<Project>, flag: bool): (r: seq<Project>)
    ensures |r| <= |ps|
    ensures forall p :: p in r <==> p in ps && p.featured == flag
  {
    if |ps| == 0 then []
    else if ps[0].featured == flag then [ps[0]] + WithFlag(ps[1..], flag)
    else WithFlag(ps[1..], flag)
  }

  /** The large grid: `projects.filter(p => p.featured)`. */
  function FeaturedGrid(ps: seq<Project>): (r: seq<Project>)
    ensures forall p :: p in r <==> p in ps && p.featured
  {
    WithFlag(ps, true)
  }

  /** The compact grid: `projects.filter(p => !p.featured)`. */
  function SecondaryGrid(ps: seq<Project>): (r: seq<Project>)
    ensures forall p :: p in r <==> p in ps && !p.featured
  {
    WithFlag(ps, false)
  }

  /** `xs` is an order-preserving merge of `a` and `b`: both keep their relative
      order, and every element of `xs` comes from exactly one of them. */
  ghost predicate Interleaves(xs: seq<Project>, a: seq<Project>, b: seq<Project>)
    decreases |xs|
  {
    if |xs| == 0 then a == [] && b == []
    else
      || (|a| > 0 && a[0] == xs[0] && Interleaves(xs[1..], a[1..], b))
      || (|b| > 0 && b[0] == xs[0] && Interleaves(xs[1..], a, b[1..]))
  }

  /** The two grids split the list: their interleaving gives back the project list in
      its original order. */
  lemma {:induction false} GridsInterleave(ps: seq<Project>)
    ensures Interleaves(ps, FeaturedGrid(ps), SecondaryGrid(ps))
    decreases |ps|
  {
    if |ps| > 0 {
      GridsInterleave(ps[1..]);
    }
  }

  /** Conversely, the grids are the only such split: an order-preserving split into
      featured and non-featured projects is the pair of grids. */
  lemma {:induction false} InterleaveDeterminesGrids(ps: seq<Project>, a: seq<Project>, b: seq<Project>)
    requires Interleaves(ps, a, b)
    requires forall k | 0 <= k < |a| :: a[k].featured
    requires forall k | 0 <= k < |b| :: !b[k].featured
    ensures a == FeaturedGrid(ps) && b == SecondaryGrid(ps)
    decreases |ps|
  {
    if |ps| > 0 {
      if ps[0].featured {
        assert |a| > 0 && a[0] == ps[0] && Interleaves(ps[1..], a[1..], b);
        InterleaveDeterminesGrids(ps[1..], a[1..], b);
        assert a == [a[0]] + a[1..];
      } else {
        assert |b| > 0 && b[0] == ps[0] && Interleaves(ps[1..], a, b[1..]);
        InterleaveDeterminesGrids(ps[1..], a, b[1..]);
        assert b == [b[0]] + b[1..];
      }
    }
  }

  /** Every project is in exactly one grid, counted with multiplicity, so the grid sizes
      add up to the number of projects. */
  lemma {:induction false} GridsPartition(ps: seq<Project>)
    ensures multiset(FeaturedGrid(ps)) + multiset(SecondaryGrid(ps)) == multiset(ps)
    ensures |FeaturedGrid(ps)| + |SecondaryGrid(ps)| == |ps|
    decreases |ps|
  {
    if |ps| > 0 {
      GridsPartition(ps[1..]);
      assert ps == [ps[0]] + ps[1..];
    }
  }

  /** What a compact card shows of the technology list. */
  datatype CompactTags = CompactTags(shown: seq<string>, badge: Option<nat>)

  function Min(a: nat, b: nat): nat {
    if a <= b then a else b
  }

  /** `technologies.slice(0, 3)` and the badge `+{length - 3}` when `length > 3`. */
  function CompactTagsOf(technologies: seq<string>): (r: CompactTags)
    ensures |r.shown| == Min(3, |technologies|)
    ensures r.shown == technologies[..|r.shown|]
    ensures r.badge.Some? <==> |technologies| > 3
    ensures |r.shown| + r.badge.GetOr(0) == |technologies|
  {
    var shown := technologies[..Min(3, |technologies|)];
    CompactTags(shown, if |technologies| > 3 then Some(|technologies| - 3) else None)
  }

  /** What a card shows: the title, the technology tags, the "+N" badge if any,
      whether the "Featured" label is drawn, and the GitHub stats. */
  datatype Card = Card(title: string, tags: seq<string>, overflow: Option<nat>, featuredLabel: bool, stats: Stats)

  /** A card of the large grid: every technology, in order, and no badge. */
  function FeaturedCard(p: Project): (c: Card)
    ensures c.tags == p.technologies && c.overflow.None?
    ensures c.title == p.title && c.stats == p.stats && c.featuredLabel == p.featured
  {
    Card(p.title, p.technologies, None, p.featured, p.stats)
  }

  /** A card of the compact grid: the first three technologies and the badge. */
  function CompactCard(p: Project): (c: Card)
    ensures |c.tags| == Min(3, |p.technologies|) && c.tags == p.technologies[..|c.tags|]
    ensures c.overflow.Some? <==> |p.technologies| > 3
    ensures |c.tags| + c.overflow.GetOr(0) == |p.technologies|
    ensures c.title == p.title && c.stats == p.stats && !c.featuredLabel
  {
    var t := CompactTagsOf(p.technologies);
    Card(p.title, t.shown, t.badge, false, p.stats)
  }

  /** A compact card hides nothing silently: its tags begin the full card's list, and
      the badge counts exactly the tags left out. */
  lemma CompactCardAccountsForAllTags(p: Project)
    ensures var full, compact := FeaturedCard(p).tags, CompactCard(p).tags;
      && compact == full[..|compact|]
      && |compact| + CompactCard(p).overflow.GetOr(0) == |full|
      && (|full| <= 3 ==> compact == full)
  {
  }

  /** The compact grid shows, for each non-featured project in order, a prefix of at
      most three of its technologies and a badge counting the rest. */
  function CompactGridTags(ps: seq<Project>): (r: seq<CompactTags>)
    ensures |r| == |SecondaryGrid(ps)|
    ensures forall k | 0 <= k < |r| ::
      var t := SecondaryGrid(ps)[k].technologies;
      && |r[k].shown| == Min(3, |t|)
      && |r[k].shown| + r[k].badge.GetOr(0) == |t|
      && r[k].shown == t[..|r[k].shown|]
      && (r[k].badge.Some? <==> |t| > 3)
  {
    var grid := SecondaryGrid(ps);
    seq(|grid|, k requires 0 <= k < |grid| => CompactTagsOf(grid[k].technologies))
  }

  /** The section's six projects. */
  function Catalog(): seq<Project> {
    [ Project("E-Commerce Platform",
        ["React", "TypeScript", "Tailwind CSS", "Stripe", "Node.js"],
        true, Stats(234, 45)),
      Project("Task Management App",
        ["React", "Node.js", "Socket.io", "MongoDB", "Express"],
        true, Stats(189, 32)),
      Project("Weather Dashboard",
        ["Vue.js", "Chart.js", "Weather API", "CSS3", "PWA"],
        false, Stats(156, 28)),
      Project("Social Media Dashboard",
        ["React", "D3.js", "Firebase", "Material-UI", "Analytics"],
        false, Stats(298, 67)),
      Project("Learning Management System",
        ["Next.js", "Prisma", "PostgreSQL", "Tailwind CSS", "Video.js"],
        true, Stats(412, 89)),
      Project("AI-Powered Chat App",
        ["React", "OpenAI API", "WebSocket", "Redis", "Docker"],
        true, Stats(567, 123))
    ]
  }

  /** Six projects flagged featured, featured, plain, plain, featured, featured. */
  lemma SixWithTwoPlain(ps: seq<Project>)
    requires |ps| == 6
    requires ps[0].featured && ps[1].featured && !ps[2].featured
    requires !ps[3].featured && ps[4].featured && ps[5].featured
    ensures SecondaryGrid(ps) == [ps[2], ps[3]]
  {
    assert WithFlag(ps[6..], false) == [];
    assert WithFlag(ps[5..], false) == [] by { assert ps[5..][1..] == ps[6..]; }
    assert WithFlag(ps[4..], false) == [] by { assert ps[4..][1..] == ps[5..]; }
    assert WithFlag(ps[3..], false) == [ps[3]] by { assert ps[3..][1..] == ps[4..]; }
    assert WithFlag(ps[2..], false) == [ps[2], ps[3]] by { assert ps[2..][1..] == ps[3..]; }
    assert WithFlag(ps[1..], false) == [ps[2], ps[3]] by { assert ps[1..][1..] == ps[2..]; }
  }

  /** On the real list the compact grid holds Weather Dashboard and Social Media
      Dashboard, and the featured grid the other four. */
  lemma CatalogGrids()
    ensures SecondaryGrid(Catalog()) == [Catalog()[2], Catalog()[3]]
    ensures |FeaturedGrid(Catalog())| == 4
  {
    var c := Catalog();
    SixWithTwoPlain(c);
    GridsPartition(c);
  }

  /** Both compact cards of the real list show three tags and a "+2" badge. */
  lemma CatalogBadges()
    ensures CompactTagsOf(Catalog()[2].technologies) == CompactTags(["Vue.js", "Chart.js", "Weather API"], Some(2))
    ensures CompactTagsOf(Catalog()[3].technologies) == CompactTags(["React", "D3.js", "Firebase"], Some(2))
  {
  }
}
