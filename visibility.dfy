/** The per-target annotation of app.py: whether each catalog object is
    above the horizon mask now, with its (placeholder) rise and set
    instants, collected in catalog order into the list of filtered
    objects. */
module Visibility {
  import opened Wrappers
  import opened Horizon

  /** A target's horizontal position at the current instant, in degrees. */
  datatype AltAz = AltAz(alt: real, az: real)

  /** The set time is a fixed twelve hours after now (instants in hours). */
  const SetDelayHours: real := 12.0

  /** The visibility test: strictly above the mask; a target exactly on the
      mask is hidden. */
  predicate AboveMask(alt: real, limit: real) {
    alt > limit
  }

  /** `altaz.alt.deg > get_horizon_limit(altaz.az.deg)`, failing where the
      mask lookup does. */
  function VisibleNow(mask: HorizonMask, pos: AltAz): (r: Result<bool, MaskError>)
    requires ValidMask(mask)
    ensures r.Failure? <==> mask.table == Some([])
    ensures r.Success? ==> (r.value <==> AboveMask(pos.alt, Limit(mask, pos.az).value))
  {
    match Limit(mask, pos.az)
    case Failure(e) => Failure(e)
    case Success(limit) => Success(pos.alt > limit)
  }

  /** A target lying exactly on the mask, or below it, is not visible. */
  lemma OnMaskNotVisible(mask: HorizonMask, pos: AltAz)
    requires ValidMask(mask) && Limit(mask, pos.az).Success?
    requires pos.alt <= Limit(mask, pos.az).value
    ensures VisibleNow(mask, pos) == Success(false)
  {
  }

  /** With the sliders only, a target higher than the slider maximum (90)
      is always visible and one at or below the slider minimum (0) never;
      and visibility repeats every full turn of azimuth. */
  lemma SliderVisibility(mask: HorizonMask, pos: AltAz, k: int)
    requires ValidMask(mask) && mask.table.None?
    ensures pos.alt > SliderMax as real ==> VisibleNow(mask, pos) == Success(true)
    ensures pos.alt <= SliderMin as real ==> VisibleNow(mask, pos) == Success(false)
    ensures VisibleNow(mask, AltAz(pos.alt, pos.az + FullTurn * k as real)) == VisibleNow(mask, pos)
  {
    LimitPeriodic(mask, pos.az, k);
  }

  /** A worked case: all sliders at 15, a target at altitude 20 in
      the East is visible, and at altitude 15 it is not. */
  lemma DefaultMaskExample()
    ensures VisibleNow(DefaultMask(), AltAz(20.0, 90.0)) == Success(true)
    ensures VisibleNow(DefaultMask(), AltAz(15.0, 90.0)) == Success(false)
  {
    DefaultMaskLimit(90.0);
  }

  /** A catalog entry. Its name, coordinates and size are fixed; the three
      annotation keys are absent until the annotation step sets them. */
  class CatalogObject {
    const name: string
    const ra: string
    const dec: string
    const sizeArcmin: real
    var visibleNow: Option<bool>
    var riseTime: Option<real>
    var setTime: Option<real>

    constructor (name: string, ra: string, dec: string, sizeArcmin: real)
      ensures this.name == name && this.ra == ra && this.dec == dec && this.sizeArcmin == sizeArcmin
      ensures visibleNow.None? && riseTime.None? && setTime.None?
    {
      this.name, this.ra, this.dec, this.sizeArcmin := name, ra, dec, sizeArcmin;
      visibleNow, riseTime, setTime := None, None, None;
    }

    /** The annotation this object carries once the step has run for it. */
    predicate AnnotatedFor(mask: HorizonMask, pos: AltAz, now: real)
      requires ValidMask(mask)
      reads this
    {
      && VisibleNow(mask, pos).Success?
      && visibleNow == Some(VisibleNow(mask, pos).value)
      && riseTime == Some(now)
      && setTime == Some(now + SetDelayHours)
    }

    /** Sets `visible_now`, `rise_time` (now) and `set_time` (now + 12 h).
        When the mask lookup raises, nothing is set. */
    method Annotate(mask: HorizonMask, pos: AltAz, now: real) returns (err: Option<MaskError>)
      requires ValidMask(mask)
      modifies this
      ensures err.None? <==> mask.table != Some([])
      ensures err.None? ==> AnnotatedFor(mask, pos, now)
      ensures err.Some? ==> unchanged(this)
    {
      var v := VisibleNow(mask, pos);
      if v.Failure? {
        return Some(v.error);
      }
      visibleNow := Some(v.value);
      riseTime := Some(now);
      setTime := Some(now + SetDelayHours);
      err := None;
    }
  }

  /** The placeholder instants bracket now: rise <= now <= set, so a visible
      target is always inside its own window. */
  lemma PlaceholderWindow(o: CatalogObject, mask: HorizonMask, pos: AltAz, now: real)
    requires ValidMask(mask) && o.AnnotatedFor(mask, pos, now)
    ensures o.riseTime.value <= now <= o.setTime.value
    ensures o.visibleNow == Some(true) ==> pos.alt > Limit(mask, pos.az).value
  {
  }

  /** The loop around the annotation step: every object, in catalog order,
      is annotated at the position `transform` gives for its coordinates
      and appended to the filtered list. A failing mask lookup raises at the
      first object, before anything is set or appended; `err` reports that
      exception as leaving the loop uncaught. */
  method AnnotateAll(objs: seq<CatalogObject>, transform: (string, string) -> AltAz,
                     mask: HorizonMask, now: real)
    returns (filtered: seq<CatalogObject>, err: Option<MaskError>)
    requires ValidMask(mask)
    modifies set o | o in objs
    ensures err.None? <==> (mask.table != Some([]) || objs == [])
    ensures err.None? ==> filtered == objs
    ensures err.None? ==> forall o :: o in objs ==> o.AnnotatedFor(mask, transform(o.ra, o.dec), now)
    ensures err.Some? ==> filtered == [] && forall o :: o in objs ==> unchanged(o)
  {
    filtered := [];
    err := None;
    var i := 0;
    while i < |objs|
      invariant 0 <= i <= |objs|
      invariant err.None?
      invariant filtered == objs[..i]
      invariant i > 0 ==> mask.table != Some([])
      invariant forall o :: o in objs[..i] ==> o.AnnotatedFor(mask, transform(o.ra, o.dec), now)
      invariant forall o :: o in objs && o !in objs[..i] ==> unchanged(o)
    {
      var o := objs[i];
      var e := o.Annotate(mask, transform(o.ra, o.dec), now);
      if e.Some? {
        return [], e;
      }
      filtered := filtered + [o];
      i := i + 1;
    }
  }
}
