/** The reusable host views `HostCell` and `HostSupplementaryView`. Both follow the
    `CollectionViewHost` lifecycle: `prepareForReuse` tears the hosting controller down, and
    assigning a hosted view builds a new hosting controller and adds its view as a subview.
    `V` is the hosted SwiftUI view, `B` the slot's bounds. */
module HostSlots {
  import opened Basics

  /** A `UIHostingController` together with its root view and the frame given to its view.
      `id` stands for object identity: two controllers built for equal views are still two
      different objects. */
  datatype HostController<V, B> = HostController(id: nat, rootView: V, frame: B)

  /** A host cell or host supplementary view: its bounds, its `hostController` property, the
      hosting views currently added as its subviews (oldest first), and the identity the next
      controller built in it will get. */
  datatype HostSlot<V, B> = HostSlot(
    bounds: B,
    hostController: Option<HostController<V, B>>,
    subviews: seq<HostController<V, B>>,
    nextId: nat)

  /** A freshly created slot: no controller and no hosting subviews. */
  function NewSlot<V, B>(bounds: B): (r: HostSlot<V, B>)
    ensures r.hostController.None? && r.subviews == [] && r.bounds == bounds
    ensures WellFormed(r) && Clean(r)
  {
    HostSlot(bounds, None, [], 0)
  }

  /** Controller identities are unique and already issued, and the current controller's view
      is among the subviews. */
  ghost predicate WellFormed<V, B>(s: HostSlot<V, B>)
  {
    && (forall i :: 0 <= i < |s.subviews| ==> s.subviews[i].id < s.nextId)
    && DistinctBy(s.subviews, (v: HostController<V, B>) => v.id)
    && (s.hostController.Some? ==> s.hostController.value in s.subviews)
  }

  /** The slot holds at most one hosting subview, and it is the current controller's. */
  ghost predicate Clean<V, B>(s: HostSlot<V, B>)
  {
    match s.hostController
    case None => s.subviews == []
    case Some(h) => s.subviews == [h]
  }

  /** `handlePrepareForReuse`: the current controller's view leaves the superview and the
      controller is dropped. */
  function PrepareForReuse<V, B>(s: HostSlot<V, B>): (r: HostSlot<V, B>)
    ensures r.hostController.None?
    ensures r.bounds == s.bounds && r.nextId == s.nextId
    ensures s.hostController.None? ==> r.subviews == s.subviews
    ensures s.hostController.Some? ==>
              && (forall i :: 0 <= i < |r.subviews| ==> r.subviews[i].id != s.hostController.value.id)
              && (forall i :: 0 <= i < |s.subviews| && s.subviews[i].id != s.hostController.value.id ==>
                    s.subviews[i] in r.subviews)
  {
    match s.hostController
    case None => s
    case Some(h) =>
      s.(hostController := None, subviews := RemoveAll(s.subviews, (v: HostController<V, B>) => v.id == h.id))
  }

  /** `handleWillSetHostedView`: a nil view changes nothing; otherwise a new controller for the
      view replaces `hostController`, its view gets the slot's bounds as frame and is added as
      one more subview. The previous controller's view is not removed. */
  function SetHostedView<V, B>(s: HostSlot<V, B>, newValue: Option<V>): (r: HostSlot<V, B>)
    ensures newValue.None? ==> r == s
    ensures newValue.Some? ==>
              && r.hostController.Some?
              && r.hostController.value.rootView == newValue.value
              && r.hostController.value.frame == s.bounds
              && r.subviews == s.subviews + [r.hostController.value]
              && r.bounds == s.bounds
    ensures WellFormed(s) ==> WellFormed(r)
  {
    match newValue
    case None => s
    case Some(view) =>
      var h := HostController(s.nextId, view, s.bounds);
      s.(hostController := Some(h), subviews := s.subviews + [h], nextId := s.nextId + 1)
  }

  /** Preparing for reuse keeps the slot well formed. */
  lemma PrepareForReusePreservesWellFormed<V, B>(s: HostSlot<V, B>)
    requires WellFormed(s)
    ensures WellFormed(PrepareForReuse(s))
  {
    if s.hostController.Some? {
      var id := s.hostController.value.id;
      RemoveAllKeepsKeysDistinct(s.subviews, (v: HostController<V, B>) => v.id == id,
                                 (v: HostController<V, B>) => v.id);
    }
  }

  /** Removing the hosted view of a well-formed slot drops exactly that one subview and keeps
      the others in order. */
  lemma PrepareForReuseRemovesOne<V, B>(s: HostSlot<V, B>)
    requires WellFormed(s) && s.hostController.Some?
    ensures exists k :: 0 <= k < |s.subviews| && s.subviews[k] == s.hostController.value &&
              PrepareForReuse(s).subviews == s.subviews[..k] + s.subviews[k + 1..]
  {
    var h := s.hostController.value;
    var k :| 0 <= k < |s.subviews| && s.subviews[k] == h;
    RemoveAllSingleMatch(s.subviews, (v: HostController<V, B>) => v.id == h.id, k);
  }

  /** `prepareForReuse` twice is the same as once. */
  lemma PrepareForReuseIdempotent<V, B>(s: HostSlot<V, B>)
    ensures PrepareForReuse(PrepareForReuse(s)) == PrepareForReuse(s)
  {
  }

  /** Assigning a second view without a reuse in between leaves both hosting views mounted:
      the first controller's view stays a subview although `hostController` no longer
      refers to it. */
  lemma SetTwiceKeepsBothMounted<V, B>(s: HostSlot<V, B>, a: V, b: V)
    ensures var r := SetHostedView(SetHostedView(s, Some(a)), Some(b));
            && |r.subviews| == |s.subviews| + 2
            && r.subviews[|s.subviews|].rootView == a
            && r.subviews[|s.subviews| + 1].rootView == b
            && r.hostController == Some(r.subviews[|s.subviews| + 1])
            && !Clean(r)
  {
  }

  /** A view leaked by two assignments is never torn down: the next reuse removes only the
      current controller's view, so the first one stays a subview. */
  lemma LeakedViewSurvivesReuse<V, B>(s: HostSlot<V, B>, a: V, b: V)
    ensures var first := SetHostedView(s, Some(a));
            var r := PrepareForReuse(SetHostedView(first, Some(b)));
            && r.hostController.None?
            && first.hostController.value in r.subviews
            && first.hostController.value.rootView == a
  {
    var first := SetHostedView(s, Some(a));
    var second := SetHostedView(first, Some(b));
    assert second.subviews[|s.subviews|] == first.hostController.value;
  }

  /** From a fresh slot: assign `x`, assign `y`, reuse, assign `z` leaves two hosting
      subviews, the leaked `x` and the new `z`. */
  lemma LeakedViewAfterDequeue<V, B>(bounds: B, x: V, y: V, z: V)
    ensures var r := SetHostedView(PrepareForReuse(SetHostedView(SetHostedView(NewSlot(bounds), Some(x)), Some(y))), Some(z));
            && |r.subviews| == 2
            && r.subviews[0].rootView == x
            && r.subviews[1].rootView == z
            && !Clean(r)
  {
    var s1 := SetHostedView(NewSlot<V, B>(bounds), Some(x));
    var s2 := SetHostedView(s1, Some(y));
    assert WellFormed(s2);
    assert s2.subviews[0].rootView == x && s2.subviews[1] == s2.hostController.value;
    PrepareForReuseRemovesOne(s2);
    var s3 := PrepareForReuse(s2);
    var k :| 0 <= k < |s2.subviews| && s2.subviews[k] == s2.hostController.value &&
             s3.subviews == s2.subviews[..k] + s2.subviews[k + 1..];
    assert s2.subviews[0].id != s2.subviews[1].id;
    assert k == 1;
    assert s3.subviews == [s2.subviews[0]];
  }

  /** The dequeue path, a reuse followed by an assignment, leaves exactly one hosting
      subview, the new one, when the slot started clean. */
  lemma ReuseThenSetMountsOne<V, B>(s: HostSlot<V, B>, v: V)
    requires WellFormed(s) && Clean(s)
    ensures var r := SetHostedView(PrepareForReuse(s), Some(v));
            && Clean(r) && WellFormed(r)
            && |r.subviews| == 1
            && r.subviews[0].rootView == v
            && r.subviews[0].frame == s.bounds
  {
    if s.hostController.Some? {
      PrepareForReuseRemovesOne(s);
    }
  }
}
