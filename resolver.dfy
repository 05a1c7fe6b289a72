/**
 * Resolving the phase list: keep the drawable phases in their list order,
 * then fold them to the earliest start and the latest end.
 */
module Resolver {
  import opened Options
  import opened Calendar
  import opened Phases

  /** The drawable phases, in the order of the form. */
  function Renderable(ps: seq<Phase>): (r: seq<Phase>)
    ensures |r| <= |ps|
    ensures forall p :: p in r <==> p in ps && ShouldRender(p)
    ensures AllRenderable(r)
  {
    if ps == [] then []
    else if ShouldRender(ps[0]) then [ps[0]] + Renderable(ps[1..])
    else Renderable(ps[1..])
  }

  predicate AllRenderable(ps: seq<Phase>) {
    forall k :: 0 <= k < |ps| ==> ShouldRender(ps[k])
  }

  /**
   * Filtering distributes over concatenation: together with the
   * one-element case this says the drawable phases keep their relative
   * order and nothing else is kept.
   */
  lemma {:induction false} RenderableAppend(a: seq<Phase>, b: seq<Phase>)
    ensures Renderable(a + b) == Renderable(a) + Renderable(b)
  {
    if a == [] {
      assert a + b == b;
    } else {
      assert (a + b)[0] == a[0];
      assert (a + b)[1..] == a[1..] + b;
      RenderableAppend(a[1..], b);
    }
  }

  lemma RenderableSingle(p: Phase)
    ensures Renderable([p]) == if ShouldRender(p) then [p] else []
  {
    assert [p][1..] == [];
  }

  /** A list whose phases are all drawable is kept whole. */
  lemma {:induction false} RenderableKeepsAll(ps: seq<Phase>)
    requires AllRenderable(ps)
    ensures Renderable(ps) == ps
  {
    if ps != [] {
      assert AllRenderable(ps[1..]) by {
        forall k | 0 <= k < |ps[1..]| ensures ShouldRender(ps[1..][k]) {
          assert ps[1..][k] == ps[k + 1];
        }
      }
      RenderableKeepsAll(ps[1..]);
    }
  }

  /** Filtering twice is filtering once. */
  lemma RenderableIdempotent(ps: seq<Phase>)
    ensures Renderable(Renderable(ps)) == Renderable(ps)
  {
    RenderableKeepsAll(Renderable(ps));
  }

  /** `reduce` with the step `phase.d0 < min ? phase.d0 : min`, from the accumulator `acc`. */
  function FoldMinStart(ps: seq<Phase>, acc: Day): (r: Day)
    requires AllRenderable(ps)
    ensures r <= acc
    ensures forall k :: 0 <= k < |ps| ==> r <= Start(ps[k])
    ensures r == acc || exists k :: 0 <= k < |ps| && r == Start(ps[k])
    decreases |ps|
  {
    if ps == [] then acc
    else
      var next := if Start(ps[0]) < acc then Start(ps[0]) else acc;
      var r := FoldMinStart(ps[1..], next);
      assert forall k :: 1 <= k < |ps| ==> ps[k] == ps[1..][k - 1];
      r
  }

  /** `reduce` with the step `phase.d1 > max ? phase.d1 : max`, from the accumulator `acc`. */
  function FoldMaxEnd(ps: seq<Phase>, acc: Day): (r: Day)
    requires AllRenderable(ps)
    ensures r >= acc
    ensures forall k :: 0 <= k < |ps| ==> r >= End(ps[k])
    ensures r == acc || exists k :: 0 <= k < |ps| && r == End(ps[k])
    decreases |ps|
  {
    if ps == [] then acc
    else
      var next := if End(ps[0]) > acc then End(ps[0]) else acc;
      var r := FoldMaxEnd(ps[1..], next);
      assert forall k :: 1 <= k < |ps| ==> ps[k] == ps[1..][k - 1];
      r
  }

  /** The earliest start among the drawable phases: the fold seeded with the first start. */
  function MinStart(ps: seq<Phase>): (r: Day)
    requires ps != [] && AllRenderable(ps)
    ensures exists k :: 0 <= k < |ps| && r == Start(ps[k])
    ensures forall k :: 0 <= k < |ps| ==> r <= Start(ps[k])
  {
    FoldMinStart(ps, Start(ps[0]))
  }

  /** The latest end among the drawable phases: the fold seeded with the first end. */
  function MaxEnd(ps: seq<Phase>): (r: Day)
    requires ps != [] && AllRenderable(ps)
    ensures exists k :: 0 <= k < |ps| && r == End(ps[k])
    ensures forall k :: 0 <= k < |ps| ==> r >= End(ps[k])
  {
    FoldMaxEnd(ps, End(ps[0]))
  }

  /** The resolved range is never empty: it starts strictly before it ends. */
  lemma RangeOrdered(ps: seq<Phase>)
    requires ps != [] && AllRenderable(ps)
    ensures MinStart(ps) < MaxEnd(ps)
    ensures YearOf(MinStart(ps)) <= YearOf(MaxEnd(ps))
  {
    assert MinStart(ps) <= Start(ps[0]) < End(ps[0]) <= MaxEnd(ps);
    YearOfMonotone(MinStart(ps), MaxEnd(ps));
  }

  /** Two drawable phases, 2020-01-01..2020-06-01 and 2019-05-01..2021-01-01, resolve to 2019-05-01..2021-01-01. */
  lemma ResolveExample(a: Phase, b: Phase)
    requires a == Phase("first", Some(FromCivil(2020, 1, 1)), Some(FromCivil(2020, 6, 1)), DefaultColor, true)
    requires b == Phase("second", Some(FromCivil(2019, 5, 1)), Some(FromCivil(2021, 1, 1)), DefaultColor, true)
    ensures Renderable([a, b]) == [a, b]
    ensures MinStart([a, b]) == FromCivil(2019, 5, 1)
    ensures MaxEnd([a, b]) == FromCivil(2021, 1, 1)
  {
    CivilOrder(2020, 1, 1, 2020, 6, 1);
    CivilOrder(2019, 5, 1, 2021, 1, 1);
    CivilOrder(2019, 5, 1, 2020, 1, 1);
    CivilOrder(2020, 6, 1, 2021, 1, 1);
    RenderableKeepsAll([a, b]);
  }
}
