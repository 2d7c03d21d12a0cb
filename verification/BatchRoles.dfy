/** The batch coordinate of a contraction: the axes a caller declares, the sixteen slots they are
    stored in, and the class derived from them. */
module BatchRoles {
  import opened Wrappers
  import opened Arith
  import opened Distinctness
  import opened KeyCodes

  const MAX_RANK := 8
  const BATCH_CAP := 16
  const U8_MAX := 255

  datatype BatchRoleDecline = AxisOutOfRange | DuplicateAxis | OverlapsContractionRole | NotInOutput | NonPositiveExtent

  /** `SizeClass::of`. */
  function SizeClassOf(extent: int): SizeClass {
    if extent <= 8 then Tiny else if extent <= 128 then Small else if extent <= 2048 then Mid else Large
  }

  /** Why an axis is refused, given the axes listed before it. */
  function Refusal(frame: seq<int>, before: seq<nat>, axis: nat, mnk: seq<nat>,
      out: seq<nat>): Option<BatchRoleDecline> {
    if axis >= |frame| then Some(AxisOutOfRange)
    else if axis in before then Some(DuplicateAxis)
    else if axis in mnk then Some(OverlapsContractionRole)
    else if axis !in out then Some(NotInOutput)
    else if frame[axis] < 1 then Some(NonPositiveExtent)
    else None
  }

  /** The first refusal from position `i` on. */
  function FirstRefusal(frame: seq<int>, axes: seq<nat>, mnk: seq<nat>, out: seq<nat>, i: nat): Option<BatchRoleDecline>
    requires i <= |axes|
    decreases |axes| - i
  {
    if i == |axes| then None
    else if Refusal(frame, axes[..i], axes[i], mnk, out).Some? then Refusal(frame, axes[..i], axes[i], mnk, out)
    else FirstRefusal(frame, axes, mnk, out, i + 1)
  }

  ghost predicate Sound(frame: seq<int>, axes: seq<nat>) {
    forall i :: 0 <= i < |axes| ==> axes[i] < |frame| && frame[axes[i]] >= 1
  }

  /** The product of the extents of the listed axes. */
  function Volume(frame: seq<int>, axes: seq<nat>): (v: int)
    requires Sound(frame, axes)
    ensures v >= 1
  {
    if axes == [] then 1 else
      MulPos(frame[axes[0]], Volume(frame, axes[1..]));
      frame[axes[0]] * Volume(frame, axes[1..])
  }

  lemma {:induction false} NoRefusalSound(frame: seq<int>, axes: seq<nat>, mnk: seq<nat>, out: seq<nat>, i: nat)
    requires i <= |axes| && FirstRefusal(frame, axes, mnk, out, i).None?
    ensures forall j :: i <= j < |axes| ==> Refusal(frame, axes[..j], axes[j], mnk, out).None?
    ensures i == 0 ==> Sound(frame, axes)
    decreases |axes| - i
  {
    if i < |axes| {
      NoRefusalSound(frame, axes, mnk, out, i + 1);
    }
  }

  /** `derive_batch_class`: the first refusal, or the class of the whole batch extent. */
  function BatchClass(frame: seq<int>, axes: seq<nat>, mnk: seq<nat>, out: seq<nat>): Result<Option<SizeClass>,
      BatchRoleDecline> {
    match FirstRefusal(frame, axes, mnk, out, 0)
    case Some(why) => Err(why)
    case None =>
      NoRefusalSound(frame, axes, mnk, out, 0);
      Ok(if axes == [] then None else Some(SizeClassOf(Volume(frame, axes))))
  }

  /** The class says how large the product of the batch extents is: up to 8, 128, 2048, or more. */
  lemma ClassByVolume(frame: seq<int>, axes: seq<nat>, mnk: seq<nat>, out: seq<nat>)
    requires BatchClass(frame, axes, mnk, out).Ok?
    ensures Sound(frame, axes)
    ensures var (r, v) := (BatchClass(frame, axes, mnk, out).value, Volume(frame, axes));
            (r.None? <==> axes == []) &&
            (axes != [] ==>
               (r.value.Tiny? <==> v <= 8) && (r.value.Small? <==> 8 < v <= 128) &&
               (r.value.Mid? <==> 128 < v <= 2048) && (r.value.Large? <==> 2048 < v))
  {
    NoRefusalSound(frame, axes, mnk, out, 0);
  }

  lemma {:induction false} VolumeSnoc(frame: seq<int>, axes: seq<nat>, a: nat)
    requires Sound(frame, axes) && a < |frame| && frame[a] >= 1
    ensures Sound(frame, axes + [a]) && Volume(frame, axes + [a]) == Volume(frame, axes) * frame[a]
  {
    if axes == [] {
      assert axes + [a] == [a] && [a][1..] == [];
    } else {
      assert (axes + [a])[1..] == axes[1..] + [a];
      VolumeSnoc(frame, axes[1..], a);
      MulAssoc(frame[axes[0]], Volume(frame, axes[1..]), frame[a]);
    }
  }

  /** The saturating product never changes the class. */
  lemma SaturationKeepsClass(v: int)
    ensures SizeClassOf(Saturate(v)) == SizeClassOf(v)
  {
  }

  lemma SaturateTwice(v: int, e: pos)
    requires v >= 1
    ensures Saturate(Saturate(v) * e) == Saturate(v * e)
  {
    MulPos(v, e);
    MulPos(Saturate(v), e);
    if v <= I64_MAX {
      assert Saturate(v) == v;
    }
  }

  method DeriveBatchClass(frame: seq<int>, axes: seq<nat>, mnk: seq<nat>, out: seq<nat>)
      returns (r: Result<Option<SizeClass>, BatchRoleDecline>)
    ensures r == BatchClass(frame, axes, mnk, out)
  {
    var product := 1;
    for i := 0 to |axes|
      invariant FirstRefusal(frame, axes, mnk, out, 0) == FirstRefusal(frame, axes, mnk, out, i)
      invariant Sound(frame, axes[..i]) && product == Saturate(Volume(frame, axes[..i]))
    {
      var axis := axes[i];
      if axis >= |frame| { return Err(AxisOutOfRange); }
      var extent := frame[axis];
      if axis in axes[..i] { return Err(DuplicateAxis); }
      if axis in mnk { return Err(OverlapsContractionRole); }
      if axis !in out { return Err(NotInOutput); }
      if extent < 1 { return Err(NonPositiveExtent); }
      assert axes[..i + 1] == axes[..i] + [axis];
      VolumeSnoc(frame, axes[..i], axis);
      SaturateTwice(Volume(frame, axes[..i]), extent);
      product := Saturate(product * extent);
    }
    assert axes[..|axes|] == axes;
    SaturationKeepsClass(Volume(frame, axes));
    r := Ok(if axes == [] then None else Some(SizeClassOf(product)));
  }

  // ---- the fixed slots

  function Stored(axis: nat): nat { if axis <= U8_MAX then axis else U8_MAX }

  /** `with_batch_axes`: sixteen bytes, the rest dropped and an axis past a byte kept as 255. */
  function Slots(axes: seq<nat>): (r: seq<nat>)
    ensures |r| == if |axes| < 16 then |axes| else 16
    ensures forall i :: 0 <= i < |r| ==> r[i] == Stored(axes[i])
  {
    seq(if |axes| < BATCH_CAP then |axes| else BATCH_CAP, i requires 0 <= i < |axes| => Stored(axes[i]))
  }

  /** From where no axis was refused so far the two lists are refused alike. */
  lemma {:induction false} SlotsRefuseAlike(frame: seq<int>, axes: seq<nat>, mnk: seq<nat>, out: seq<nat>, i: nat)
    requires |frame| <= MAX_RANK && i <= |Slots(axes)|
    requires Distinct(axes[..i]) && forall j :: 0 <= j < i ==> axes[j] < |frame|
    ensures FirstRefusal(frame, Slots(axes), mnk, out, i) == FirstRefusal(frame, axes, mnk, out, i)
    decreases |axes| - i
  {
    var slots := Slots(axes);
    if i < |slots| {
      assert slots[..i] == axes[..i];
      if Refusal(frame, axes[..i], axes[i], mnk, out).None? {
        assert axes[..i + 1] == axes[..i] + [axes[i]];
        SlotsRefuseAlike(frame, axes, mnk, out, i + 1);
      }
    } else if i < |axes| {
      // Sixteen axes of a frame of eight, none repeated.
      DistinctFit(axes[..i], |frame|);
    }
  }

  lemma SlotsKeepAll(frame: seq<int>, axes: seq<nat>, mnk: seq<nat>, out: seq<nat>)
    requires |frame| <= MAX_RANK && Acceptable(frame, axes, mnk, out)
    ensures Slots(axes) == axes
  {
    DistinctFit(axes, |frame|);
  }

  /** Keeping only sixteen slots loses nothing: for every frame of at most eight axes the stored
      list gives the class or the refusal the caller's own list gives, however long it is. */
  lemma SlotsLoseNothing(frame: seq<int>, axes: seq<nat>, mnk: seq<nat>, out: seq<nat>)
    requires |frame| <= 8
    ensures BatchClass(frame, Slots(axes), mnk, out) == BatchClass(frame, axes, mnk, out)
  {
    SlotsRefuseAlike(frame, axes, mnk, out, 0);
    if BatchClass(frame, axes, mnk, out).Ok? {
      ClassIffAcceptable(frame, axes, mnk, out);
      SlotsKeepAll(frame, axes, mnk, out);
    }
  }

  // ---- order

  lemma {:induction false} VolumeRemove(frame: seq<int>, axes: seq<nat>, k: nat)
    requires Sound(frame, axes) && k < |axes|
    ensures Sound(frame, axes[..k] + axes[k + 1..])
    ensures Volume(frame, axes) == frame[axes[k]] * Volume(frame, axes[..k] + axes[k + 1..])
  {
    var rest := axes[..k] + axes[k + 1..];
    if k == 0 {
      assert rest == axes[1..];
    } else {
      VolumeRemove(frame, axes[1..], k - 1);
      assert rest[1..] == axes[1..][..k - 1] + axes[1..][k..];
      MulSwap(frame[axes[0]], frame[axes[k]], Volume(frame, rest[1..]));
    }
  }

  lemma {:induction false} VolumePerm(frame: seq<int>, xs: seq<nat>, ys: seq<nat>)
    requires Sound(frame, xs) && Sound(frame, ys) && multiset(xs) == multiset(ys)
    ensures Volume(frame, xs) == Volume(frame, ys)
    decreases |xs|
  {
    var k := FindHead(xs, ys);
    if xs != [] {
      VolumeRemove(frame, ys, k);
      SameRest(xs, ys, k);
      VolumePerm(frame, xs[1..], ys[..k] + ys[k + 1..]);
    }
  }

  /** No axis of the list is refused: each in range, in the output, of positive extent, none of M, N
      and K, and none twice. */
  predicate Acceptable(frame: seq<int>, axes: seq<nat>, mnk: seq<nat>, out: seq<nat>) {
    && (forall i :: 0 <= i < |axes| ==> axes[i] < |frame| && axes[i] !in mnk && axes[i] in out && frame[axes[i]] >= 1)
    && Distinct(axes)
  }

  lemma {:induction false} AcceptableNoRefusal(frame: seq<int>, axes: seq<nat>, mnk: seq<nat>, out: seq<nat>, i: nat)
    requires i <= |axes| && Acceptable(frame, axes, mnk, out)
    ensures FirstRefusal(frame, axes, mnk, out, i).None?
    decreases |axes| - i
  {
    if i < |axes| {
      AcceptableNoRefusal(frame, axes, mnk, out, i + 1);
    }
  }

  /** A class is given exactly for the acceptable lists. */
  lemma ClassIffAcceptable(frame: seq<int>, axes: seq<nat>, mnk: seq<nat>, out: seq<nat>)
    ensures BatchClass(frame, axes, mnk, out).Ok? <==> Acceptable(frame, axes, mnk, out)
  {
    if BatchClass(frame, axes, mnk, out).Ok? {
      NoRefusalSound(frame, axes, mnk, out, 0);
      forall i, j | 0 <= i < j < |axes| ensures axes[i] != axes[j] {
        assert axes[..j][i] == axes[i];
        assert Refusal(frame, axes[..j], axes[j], mnk, out).None?;
      }
    }
    if Acceptable(frame, axes, mnk, out) {
      AcceptableNoRefusal(frame, axes, mnk, out, 0);
    }
  }

  lemma AcceptableIgnoresOrder(frame: seq<int>, xs: seq<nat>, ys: seq<nat>, mnk: seq<nat>, out: seq<nat>)
    requires multiset(xs) == multiset(ys) && Acceptable(frame, xs, mnk, out)
    ensures Acceptable(frame, ys, mnk, out)
  {
    forall i | 0 <= i < |ys| ensures ys[i] < |frame| && ys[i] !in mnk && ys[i] in out && frame[ys[i]] >= 1 {
      assert ys[i] in multiset(xs);
    }
    DistinctPerm(xs, ys);
  }

  /** And the class does not depend on the order they are listed in. */
  lemma ClassIgnoresOrder(frame: seq<int>, xs: seq<nat>, ys: seq<nat>, mnk: seq<nat>, out: seq<nat>)
    requires multiset(xs) == multiset(ys) && BatchClass(frame, xs, mnk, out).Ok?
    ensures BatchClass(frame, ys, mnk, out) == BatchClass(frame, xs, mnk, out)
  {
    ClassIffAcceptable(frame, xs, mnk, out);
    AcceptableIgnoresOrder(frame, xs, ys, mnk, out);
    ClassIffAcceptable(frame, ys, mnk, out);
    NoRefusalSound(frame, xs, mnk, out, 0);
    NoRefusalSound(frame, ys, mnk, out, 0);
    VolumePerm(frame, xs, ys);
    assert |multiset(xs)| == |xs| && |multiset(ys)| == |ys|;
  }

  // ---- why a list is refused

  /** What is wrong with entry `i`: the first of these that applies. */
  ghost predicate Wrong(frame: seq<int>, axes: seq<nat>, mnk: seq<nat>, out: seq<nat>, i: nat, why: BatchRoleDecline)
    requires i < |axes|
  {
    var a := axes[i];
    match why
    case AxisOutOfRange => a >= |frame|
    case DuplicateAxis => a < |frame| && exists j :: 0 <= j < i && axes[j] == a
    case OverlapsContractionRole => a < |frame| && (forall j :: 0 <= j < i ==> axes[j] != a) && a in mnk
    case NotInOutput => a < |frame| && (forall j :: 0 <= j < i ==> axes[j] != a) && a !in mnk && a !in out
    case NonPositiveExtent =>
      a < |frame| && (forall j :: 0 <= j < i ==> axes[j] != a) && a !in mnk && a in out && frame[a] < 1
  }

  /** The reason given is what is wrong with the first entry anything is wrong with. */
  lemma FirstWrong(frame: seq<int>, axes: seq<nat>, mnk: seq<nat>, out: seq<nat>, why: BatchRoleDecline)
    ensures BatchClass(frame, axes, mnk, out) == Err(why) <==>
            exists i :: 0 <= i < |axes| && Wrong(frame, axes, mnk, out, i, why) &&
                        forall j, w :: 0 <= j < i ==> !Wrong(frame, axes, mnk, out, j, w)
  {
    FirstWrongFrom(frame, axes, mnk, out, 0, why);
  }

  lemma RefusalIsWrong(frame: seq<int>, axes: seq<nat>, mnk: seq<nat>, out: seq<nat>, i: nat, why: BatchRoleDecline)
    requires i < |axes|
    ensures Refusal(frame, axes[..i], axes[i], mnk, out) == Some(why) <==> Wrong(frame, axes, mnk, out, i, why)
  {
  }

  lemma {:induction false} FirstWrongFrom(frame: seq<int>, axes: seq<nat>, mnk: seq<nat>, out: seq<nat>, k: nat,
      why: BatchRoleDecline)
    requires k <= |axes|
    ensures FirstRefusal(frame, axes, mnk, out, k) == Some(why) <==>
            exists i :: k <= i < |axes| && Wrong(frame, axes, mnk, out, i, why) &&
                        forall j, w :: k <= j < i ==> !Wrong(frame, axes, mnk, out, j, w)
    decreases |axes| - k
  {
    if k < |axes| {
      FirstWrongFrom(frame, axes, mnk, out, k + 1, why);
      forall w ensures Refusal(frame, axes[..k], axes[k], mnk, out) == Some(w) <==> Wrong(frame, axes, mnk, out, k, w) {
        RefusalIsWrong(frame, axes, mnk, out, k, w);
      }
      var r := Refusal(frame, axes[..k], axes[k], mnk, out);
      if r.Some? { assert Wrong(frame, axes, mnk, out, k, r.value); }
    }
  }
}
