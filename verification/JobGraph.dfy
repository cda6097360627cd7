/** The graph of a workflow's jobs: which jobs a job waits for, directly and through others, and
    whether it waits for itself on the way. */
module JobGraph {
  datatype Item = Name(text: string) | NotText

  /** The value under `needs`: one name, a list, or something else (or nothing). */
  datatype Needs = One(name: string) | Many(items: seq<Item>) | OtherNeeds

  type Jobs = map<string, Needs>

  function NamesIn(items: seq<Item>): (names: seq<string>)
    ensures forall x :: x in names <==> Name(x) in items
  {
    if items == [] then []
    else
      var rest := NamesIn(items[1..]);
      if items[0].Name? then [items[0].text] + rest else rest
  }

  /** Job a needs job b: under `needs` it names b, alone or in a list. */
  predicate Edge(jobs: Jobs, a: string, b: string) {
    a in jobs && (jobs[a] == One(b) || (jobs[a].Many? && Name(b) in jobs[a].items))
  }

  function NeedsOf(jobs: Jobs, name: string): (names: seq<string>)
    ensures forall x :: x in names <==> Edge(jobs, name, x)
  {
    if name !in jobs then []
    else match jobs[name]
      case One(other) => [other]
      case Many(items) => NamesIn(items)
      case OtherNeeds => []
  }

  predicate Walk(jobs: Jobs, p: seq<string>) {
    forall i | 0 <= i < |p| - 1 :: Edge(jobs, p[i], p[i + 1])
  }

  predicate WalkFromTo(jobs: Jobs, p: seq<string>, a: string, b: string) {
    |p| >= 2 && p[0] == a && p[|p| - 1] == b && Walk(jobs, p)
  }

  /** b is reached from a by one or more edges. */
  ghost predicate Reaches(jobs: Jobs, a: string, b: string) {
    exists p :: WalkFromTo(jobs, p, a, b)
  }

  /** Some job reached from `start` waits for itself. */
  ghost predicate CycleFrom(jobs: Jobs, start: string) {
    exists n :: Reaches(jobs, start, n) && Reaches(jobs, n, n)
  }

  lemma EdgeReaches(jobs: Jobs, a: string, b: string)
    requires Edge(jobs, a, b)
    ensures Reaches(jobs, a, b)
  {
    assert WalkFromTo(jobs, [a, b], a, b);
  }

  lemma ReachesFurther(jobs: Jobs, a: string, b: string, c: string)
    requires Reaches(jobs, a, b) && Edge(jobs, b, c)
    ensures Reaches(jobs, a, c)
  {
    var p :| WalkFromTo(jobs, p, a, b);
    assert WalkFromTo(jobs, p + [c], a, c);
  }

  /** A set that no edge leaves. */
  ghost predicate Closed(jobs: Jobs, s: set<string>) {
    forall a, b | a in s && Edge(jobs, a, b) :: b in s
  }

  lemma {:induction false} WalkStays(jobs: Jobs, s: set<string>, p: seq<string>)
    requires Closed(jobs, s) && p != [] && p[0] in s && Walk(jobs, p)
    ensures p[|p| - 1] in s
  {
    if |p| > 1 {
      assert Edge(jobs, p[0], p[1]);
      forall i | 0 <= i < |p[1..]| - 1 ensures Edge(jobs, p[1..][i], p[1..][i + 1]) {
        assert Edge(jobs, p[i + 1], p[i + 1 + 1]);
      }
      WalkStays(jobs, s, p[1..]);
    }
  }

  /** What the edges of a job lead into is where all its walks end. */
  lemma ReachesWithin(jobs: Jobs, s: set<string>, a: string, b: string)
    requires Closed(jobs, s) && Reaches(jobs, a, b) && forall d | Edge(jobs, a, d) :: d in s
    ensures b in s
  {
    var p :| WalkFromTo(jobs, p, a, b);
    assert Edge(jobs, p[0], p[1]);
    forall i | 0 <= i < |p[1..]| - 1 ensures Edge(jobs, p[1..][i], p[1..][i + 1]) {
      assert Edge(jobs, p[i + 1], p[i + 1 + 1]);
    }
    WalkStays(jobs, s, p[1..]);
  }

  // ---------------------------------------------------------------------------------------
  // The search
  // ---------------------------------------------------------------------------------------

  function Universe(jobs: Jobs): set<string> {
    jobs.Keys + set a, b | a in jobs && b in NeedsOf(jobs, a) :: b
  }

  /** Finished jobs lead only to finished ones and to those still being visited; while no circle
      has been met they lead to finished ones only, and none of them waits for itself. */
  ghost predicate Explored(jobs: Jobs, start: string, seen: set<string>, visiting: set<string>, circular: bool) {
    && seen !! visiting
    && (forall a | a in seen :: Reaches(jobs, start, a))
    && (forall a, b | a in seen && Edge(jobs, a, b) :: b in seen || b in visiting)
    && (!circular ==> Closed(jobs, seen) && forall a | a in seen :: !Reaches(jobs, a, a))
    && (circular ==> CycleFrom(jobs, start))
  }

  /** Each job being visited leads to the one visited now. */
  ghost predicate Stack(jobs: Jobs, visiting: set<string>, name: string) {
    forall v | v in visiting :: Reaches(jobs, v, name)
  }

  lemma CircleFound(jobs: Jobs, start: string, seen: set<string>, visiting: set<string>, circular: bool, name: string)
    requires Explored(jobs, start, seen, visiting, circular)
    requires Reaches(jobs, start, name) && Stack(jobs, visiting, name) && name in visiting
    ensures Explored(jobs, start, seen, visiting, true)
  {
  }

  lemma StartJob(jobs: Jobs, start: string, seen: set<string>, visiting: set<string>, circular: bool, name: string)
    requires Explored(jobs, start, seen, visiting, circular) && name !in seen
    ensures Explored(jobs, start, seen, visiting + {name}, circular)
  {
  }

  lemma NeedIsKnown(jobs: Jobs, name: string, i: nat)
    requires i < |NeedsOf(jobs, name)|
    ensures Edge(jobs, name, NeedsOf(jobs, name)[i]) && NeedsOf(jobs, name)[i] in Universe(jobs)
  {
    assert name in jobs;
  }

  lemma StackGrows(jobs: Jobs, visiting: set<string>, name: string, next: string)
    requires Stack(jobs, visiting, name) && Edge(jobs, name, next)
    ensures Stack(jobs, visiting + {name}, next)
  {
    forall v | v in visiting ensures Reaches(jobs, v, next) {
      ReachesFurther(jobs, v, name, next);
    }
    EdgeReaches(jobs, name, next);
  }

  /** A job is finished when all its edges lead into what has been explored. */
  lemma FinishJob(jobs: Jobs, start: string, seen: set<string>, visiting: set<string>, circular: bool, name: string)
    requires Explored(jobs, start, seen, visiting, circular) && name in visiting && Reaches(jobs, start, name)
    requires forall d | Edge(jobs, name, d) :: d in seen || (circular && d in visiting)
    ensures Explored(jobs, start, seen + {name}, visiting - {name}, circular)
  {
    if !circular {
      if Reaches(jobs, name, name) {
        ReachesWithin(jobs, seen, name, name);
      }
    }
  }

  class Search {
    const jobs: Jobs
    const start: string
    var seen: set<string>
    var visiting: set<string>
    var circular: bool

    constructor (jobs: Jobs, start: string)
      ensures this.jobs == jobs && this.start == start && seen == {} && visiting == {} && !circular
    {
      this.jobs, this.start := jobs, start;
      seen, visiting, circular := {}, {}, false;
    }

    ghost predicate Ready()
      reads this
    {
      Explored(jobs, start, seen, visiting, circular) && visiting <= Universe(jobs)
    }

    method Visit(name: string)
      requires Ready() && name in Universe(jobs)
      requires Reaches(jobs, start, name) && Stack(jobs, visiting, name)
      modifies this
      ensures Ready() && visiting == old(visiting) && old(seen) <= seen && (old(circular) ==> circular)
      ensures name in seen || (circular && name in visiting)
      decreases Universe(jobs) - visiting
    {
      hide Explored, Stack, Reaches, Universe, NeedsOf;
      if name in visiting {
        CircleFound(jobs, start, seen, visiting, circular, name);
        circular := true;
        return;
      }
      if name in seen {
        return;
      }
      StartJob(jobs, start, seen, visiting, circular, name);
      visiting := visiting + {name};
      var needs := NeedsOf(jobs, name);
      for i := 0 to |needs|
        invariant Ready() && visiting == old(visiting) + {name} && old(seen) <= seen && (old(circular) ==> circular)
        invariant forall j | 0 <= j < i :: needs[j] in seen || (circular && needs[j] in visiting)
      {
        NeedIsKnown(jobs, name, i);
        StackGrows(jobs, old(visiting), name, needs[i]);
        ReachesFurther(jobs, start, name, needs[i]);
        Visit(needs[i]);
      }
      forall d | Edge(jobs, name, d) ensures d in seen || (circular && d in visiting) {
        assert d in needs;
      }
      FinishJob(jobs, start, seen, visiting, circular, name);
      visiting := visiting - {name};
      seen := seen + {name};
    }
  }

  /** All jobs that `start` waits for, directly or not, and whether one of them waits for itself. */
  method Ancestors(jobs: Jobs, start: string) returns (seen: set<string>, circular: bool)
    ensures forall x :: x in seen <==> Reaches(jobs, start, x)
    ensures circular <==> CycleFrom(jobs, start)
  {
    var search := new Search(jobs, start);
    var needs := NeedsOf(jobs, start);
    for i := 0 to |needs|
      invariant search.jobs == jobs && search.start == start && search.Ready() && search.visiting == {}
      invariant forall j | 0 <= j < i :: needs[j] in search.seen
    {
      assert Edge(jobs, start, needs[i]);
      EdgeReaches(jobs, start, needs[i]);
      search.Visit(needs[i]);
    }
    seen, circular := search.seen, search.circular;
    forall x | Reaches(jobs, start, x) ensures x in seen {
      ReachesWithin(jobs, seen, start, x);
    }
  }
}
