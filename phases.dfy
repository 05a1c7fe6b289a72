/**
 * A phase: one named life interval with a colour and an enabled flag.
 * The form fields that edit a phase are outside the model; a phase here is
 * the snapshot of one record at the moment the grid is recomputed.
 */
module Phases {
  import opened Options
  import opened Calendar

  /**
   * `name` is "" while unset (JavaScript treats both as false); `d0` and `d1`
   * are `None` while unset or unparseable, and then every comparison with
   * them is false, as with an invalid JavaScript `Date`.
   */
  datatype Phase = Phase(name: string, d0: Option<Day>, d1: Option<Day>, color: string, enabled: bool)

  const DefaultColor: string := "#000000"

  /** A freshly added phase: black, enabled, with no name and no dates yet. */
  function NewPhase(): (p: Phase)
    ensures p.color == DefaultColor && p.enabled
    ensures !ShouldRender(p)
  {
    Phase("", None, None, DefaultColor, true)
  }

  /** Start strictly before end; false when either date is missing. */
  predicate Before(d0: Option<Day>, d1: Option<Day>)
    ensures d0.None? || d1.None? ==> !Before(d0, d1)
  {
    d0.Some? && d1.Some? && d0.value < d1.value
  }

  /** Whether the phase takes part in the grid: named, enabled and properly ordered. */
  predicate ShouldRender(p: Phase)
    ensures ShouldRender(p) ==> p.name != "" && p.enabled
    ensures ShouldRender(p) ==> p.d0.Some? && p.d1.Some? && p.d0.value < p.d1.value
  {
    if p.name == "" then false
    else if !p.enabled then false
    else Before(p.d0, p.d1)
  }

  /** An unnamed or disabled phase is never drawn, whatever its dates. */
  lemma HiddenWhenUnnamedOrDisabled(p: Phase)
    requires p.name == "" || !p.enabled
    ensures !ShouldRender(p)
  {
  }

  /** Once named and enabled, a phase is drawn exactly when both dates are set and start < end. */
  lemma ShownIffOrdered(p: Phase)
    requires p.name != "" && p.enabled
    ensures ShouldRender(p) <==> (p.d0.Some? && p.d1.Some? && p.d0.value < p.d1.value)
  {
  }

  /** A start on or after the end always hides a phase. */
  lemma HiddenWhenNotBefore(p: Phase)
    requires p.d0.Some? && p.d1.Some? && p.d0.value >= p.d1.value
    ensures !ShouldRender(p)
  {
  }

  /** Start and end of a drawn phase. */
  function Start(p: Phase): Day
    requires ShouldRender(p)
  {
    p.d0.value
  }

  function End(p: Phase): Day
    requires ShouldRender(p)
  {
    p.d1.value
  }
}
