/** `CollectionView` and its `Coordinator`: the hash-guarded reload that hands snapshots to
    the diffable data source, the focus handshake run when an apply completes, the one-time
    registration of supplementary-view kinds, and the cell and supplementary-view providers
    that fill dequeued host slots.

    `S` and `I` are the section and item identifiers, `P` the section layout provider, `V` a
    hosted view and `B` a slot's bounds. The rows' `hashValue` is the parameter `hash`. */
module CollectionViews {
  import opened Basics
  import opened Snapshots
  import opened HostSlots

  /** Reuse identifier of the host cell class. */
  const CellIdentifier: string := "hostCell"

  /** Reuse identifier of the host supplementary view class. */
  const SupplementaryViewIdentifier: string := "hostSupplementaryView"

  /** A cell's or supplementary view's position. */
  datatype IndexPath = IndexPath(section: nat, item: nat)

  /** One `register` call made on the `UICollectionView`. */
  datatype Registration =
    | CellRegistration(reuseIdentifier: string)
    | SupplementaryRegistration(kind: string, reuseIdentifier: string)

  /** What the `UICollectionView` has been asked to do: the view classes registered with it,
      and, for each focus update an apply's completion handler requested, whether
      `canFocusItemAt` allowed focus while it ran. Focus updates the focus engine runs on its
      own are not recorded. */
  datatype CollectionViewLog = CollectionViewLog(
    registrations: seq<Registration>,
    focusUpdates: seq<bool>)

  /** One `apply(_:animatingDifferences:completion:)` call on the data source. */
  datatype ApplyEvent<S, I> = ApplyEvent(snapshot: Snapshot<S, I>, animated: bool)

  /** The diffable data source, seen from outside: the applies handed to it, and how many of
      them have had their completion handler run. */
  datatype DataSource<S, I> = DataSource(applies: seq<ApplyEvent<S, I>>, completed: nat)

  /** The coordinator's stored properties. */
  datatype Coordinator<S, I, P> = Coordinator(
    dataSource: Option<DataSource<S, I>>,
    sectionLayoutProvider: Option<P>,
    rowsHash: Option<int>,
    registeredSupplementaryViewKinds: seq<string>,
    isFocusable: bool)

  /** `makeCoordinator`: every property at its declared default. */
  function MakeCoordinator<S, I, P>(): (r: Coordinator<S, I, P>)
    ensures r.dataSource.None? && r.sectionLayoutProvider.None? && r.rowsHash.None?
    ensures r.registeredSupplementaryViewKinds == [] && !r.isFocusable
  {
    Coordinator(None, None, None, [], false)
  }

  /** `canFocusItemAt`: items may take focus exactly while the coordinator is focusable. */
  function CanFocusItemAt<S, I, P>(c: Coordinator<S, I, P>, indexPath: IndexPath): (r: bool)
    ensures r == c.isFocusable
  {
    c.isFocusable
  }

  /** `reloadData`: store the layout provider; without a data source stop there; otherwise,
      when the stored hash differs from the rows' hash, apply the rows' snapshot and store
      the new hash. */
  function ReloadData<S(==), I, P>(
    c: Coordinator<S, I, P>, rows: seq<Row<S, I>>, provider: P,
    hash: seq<Row<S, I>> -> int, animated: bool): (r: Coordinator<S, I, P>)
    ensures r.sectionLayoutProvider == Some(provider)
    ensures r.registeredSupplementaryViewKinds == c.registeredSupplementaryViewKinds
    ensures r.isFocusable == c.isFocusable
    ensures c.dataSource.None? ==> r.dataSource.None? && r.rowsHash == c.rowsHash
    ensures c.dataSource.Some? ==>
              && r.rowsHash == Some(hash(rows))
              && r.dataSource.Some?
              && r.dataSource.value.completed == c.dataSource.value.completed
              && var before := c.dataSource.value.applies;
                 var after := r.dataSource.value.applies;
                 if c.rowsHash == Some(hash(rows)) then after == before
                 else after == before + [ApplyEvent(MakeSnapshot(rows), animated)]
  {
    var c1 := c.(sectionLayoutProvider := Some(provider));
    match c1.dataSource
    case None => c1
    case Some(ds) =>
      var rowsHash := hash(rows);
      if c1.rowsHash != Some(rowsHash) then
        var ds1 := ds.(applies := ds.applies + [ApplyEvent(MakeSnapshot(rows), animated)]);
        c1.(dataSource := Some(ds1), rowsHash := Some(rowsHash))
      else c1
  }

  /** `createCollectionView`: a new collection view with the host cell class registered. */
  function CreateCollectionView(): (r: CollectionViewLog)
    ensures r.registrations == [CellRegistration(CellIdentifier)] && r.focusUpdates == []
  {
    CollectionViewLog([CellRegistration(CellIdentifier)], [])
  }

  /** `makeUIView`: create the collection view, give the coordinator a new data source, then
      reload without animation. */
  function MakeUIView<S(==), I, P>(
    c: Coordinator<S, I, P>, rows: seq<Row<S, I>>, provider: P,
    hash: seq<Row<S, I>> -> int): (r: (Coordinator<S, I, P>, CollectionViewLog))
    ensures r.1 == CreateCollectionView()
    ensures r.0.dataSource.Some? && r.0.dataSource.value.completed == 0
    ensures r.0.rowsHash == Some(hash(rows)) && r.0.sectionLayoutProvider == Some(provider)
    ensures c.rowsHash != Some(hash(rows)) ==>
              r.0.dataSource.value.applies == [ApplyEvent(MakeSnapshot(rows), false)]
  {
    var view := CreateCollectionView();
    var c1 := c.(dataSource := Some(DataSource([], 0)));
    (ReloadData(c1, rows, provider, hash, false), view)
  }

  /** `updateUIView`: reload with animation. Unchanged rows, or no data source yet, only
      store the layout provider; changed rows add exactly one animated apply. */
  function UpdateUIView<S(==), I, P>(
    c: Coordinator<S, I, P>, rows: seq<Row<S, I>>, provider: P,
    hash: seq<Row<S, I>> -> int): (r: Coordinator<S, I, P>)
    ensures c.rowsHash == Some(hash(rows)) || c.dataSource.None? ==>
              r == c.(sectionLayoutProvider := Some(provider))
    ensures c.dataSource.Some? && c.rowsHash != Some(hash(rows)) ==>
              && r.dataSource.Some?
              && r.dataSource.value.applies == c.dataSource.value.applies + [ApplyEvent(MakeSnapshot(rows), true)]
              && r.dataSource.value.completed == c.dataSource.value.completed
              && r.rowsHash == Some(hash(rows))
              && r.sectionLayoutProvider == Some(provider)
              && r.registeredSupplementaryViewKinds == c.registeredSupplementaryViewKinds
              && r.isFocusable == c.isFocusable
  {
    ReloadData(c, rows, provider, hash, true)
  }

  /** The completion handler given to `apply`: make items focusable, run a focus update, make
      them unfocusable again. */
  function FocusHandshake<S, I, P>(c: Coordinator<S, I, P>, view: CollectionViewLog):
    (r: (Coordinator<S, I, P>, CollectionViewLog))
    ensures !r.0.isFocusable
    ensures r.0 == c.(isFocusable := false)
    ensures r.1.registrations == view.registrations
    ensures r.1.focusUpdates == view.focusUpdates + [true]
  {
    var open := c.(isFocusable := true);
    var view1 := view.(focusUpdates := view.focusUpdates + [CanFocusItemAt(open, IndexPath(0, 0))]);
    (open.(isFocusable := false), view1)
  }

  /** The data source finishing its oldest outstanding apply and running that apply's
      completion handler. It only does so for an apply that was handed to it. */
  function CompleteNextApply<S, I, P>(c: Coordinator<S, I, P>, view: CollectionViewLog):
    (r: (Coordinator<S, I, P>, CollectionViewLog))
    requires c.dataSource.Some? && c.dataSource.value.completed < |c.dataSource.value.applies|
    ensures r.0.dataSource.Some?
    ensures r.0.dataSource.value.applies == c.dataSource.value.applies
    ensures r.0.dataSource.value.completed == c.dataSource.value.completed + 1
    ensures r.0.rowsHash == c.rowsHash && !r.0.isFocusable
    ensures r.0 == c.(dataSource := Some(c.dataSource.value.(completed := c.dataSource.value.completed + 1)),
                      isFocusable := false)
    ensures r.1.registrations == view.registrations
    ensures |r.1.focusUpdates| == |view.focusUpdates| + 1 && r.1.focusUpdates[|view.focusUpdates|]
    ensures r.1.focusUpdates[..|view.focusUpdates|] == view.focusUpdates
  {
    var ds := c.dataSource.value;
    FocusHandshake(c.(dataSource := Some(ds.(completed := ds.completed + 1))), view)
  }

  /** The registration step of the supplementary view provider: a kind not yet in
      `registeredSupplementaryViewKinds` is registered and then appended to it. */
  function RegisterKindIfNeeded<S, I, P>(c: Coordinator<S, I, P>, view: CollectionViewLog, kind: string):
    (r: (Coordinator<S, I, P>, CollectionViewLog))
    ensures kind in r.0.registeredSupplementaryViewKinds
    ensures kind in c.registeredSupplementaryViewKinds ==> r == (c, view)
    ensures kind !in c.registeredSupplementaryViewKinds ==>
              && r.0 == c.(registeredSupplementaryViewKinds := c.registeredSupplementaryViewKinds + [kind])
              && r.1 == view.(registrations := view.registrations + [SupplementaryRegistration(kind, SupplementaryViewIdentifier)])
    ensures NoDuplicates(c.registeredSupplementaryViewKinds) ==> NoDuplicates(r.0.registeredSupplementaryViewKinds)
  {
    if kind !in c.registeredSupplementaryViewKinds then
      var view1 := view.(registrations := view.registrations + [SupplementaryRegistration(kind, SupplementaryViewIdentifier)]);
      (c.(registeredSupplementaryViewKinds := c.registeredSupplementaryViewKinds + [kind]), view1)
    else (c, view)
  }

  /** The supplementary view provider: register the kind if needed, then fill the dequeued
      host supplementary view with the view built for this kind and position. */
  function ProvideSupplementaryView<S, I, P, V, B>(
    c: Coordinator<S, I, P>, view: CollectionViewLog, kind: string, indexPath: IndexPath,
    dequeued: HostSlot<V, B>, build: (string, IndexPath) -> V):
    (r: (Coordinator<S, I, P>, CollectionViewLog, HostSlot<V, B>))
    ensures (r.0, r.1) == RegisterKindIfNeeded(c, view, kind)
    ensures kind in r.0.registeredSupplementaryViewKinds
    ensures r.2.hostController.Some? && r.2.hostController.value.rootView == build(kind, indexPath)
    ensures r.2.hostController.value.frame == dequeued.bounds
    ensures r.2.subviews == dequeued.subviews + [r.2.hostController.value]
  {
    var (c1, view1) := RegisterKindIfNeeded(c, view, kind);
    (c1, view1, SetHostedView(dequeued, Some(build(kind, indexPath))))
  }

  /** The cell provider: fill the dequeued host cell with the cell built for this item. */
  function ProvideCell<I, V, B>(dequeued: HostSlot<V, B>, build: (IndexPath, I) -> V, indexPath: IndexPath, item: I):
    (r: HostSlot<V, B>)
    ensures r.hostController.Some? && r.hostController.value.rootView == build(indexPath, item)
    ensures r.hostController.value.frame == dequeued.bounds
    ensures r.subviews == dequeued.subviews + [r.hostController.value]
  {
    SetHostedView(dequeued, Some(build(indexPath, item)))
  }

  // ----- Properties over several calls -----

  /** A cell dequeued after `prepareForReuse` ends up hosting exactly the built cell, framed
      to its bounds, provided the slot was clean before. */
  lemma ProvideCellAfterReuse<I, V, B>(s: HostSlot<V, B>, build: (IndexPath, I) -> V, indexPath: IndexPath, item: I)
    requires WellFormed(s) && Clean(s)
    ensures var r := ProvideCell(PrepareForReuse(s), build, indexPath, item);
            && Clean(r) && WellFormed(r)
            && |r.subviews| == 1
            && r.subviews[0].rootView == build(indexPath, item)
            && r.subviews[0].frame == s.bounds
  {
    ReuseThenSetMountsOne(s, build(indexPath, item));
  }

  /** The supplementary kinds registered with the collection view, in registration order. */
  function SupplementaryKinds(regs: seq<Registration>): seq<string>
  {
    if regs == [] then []
    else
      var rest := SupplementaryKinds(regs[..|regs| - 1]);
      match regs[|regs| - 1]
      case SupplementaryRegistration(kind, _) => rest + [kind]
      case CellRegistration(_) => rest
  }

  /** Provide supplementary views for `kinds`, one request after the other. */
  function RegisterAll<S, I, P>(c: Coordinator<S, I, P>, view: CollectionViewLog, kinds: seq<string>):
    (r: (Coordinator<S, I, P>, CollectionViewLog))
    decreases |kinds|
  {
    if kinds == [] then (c, view)
    else
      var (c1, view1) := RegisterKindIfNeeded(c, view, kinds[0]);
      RegisterAll(c1, view1, kinds[1..])
  }

  /** The coordinator's kind list is duplicate-free and is exactly the list of supplementary
      registrations made on the collection view. */
  ghost predicate RegistrationsAgree<S, I, P>(c: Coordinator<S, I, P>, view: CollectionViewLog)
  {
    NoDuplicates(c.registeredSupplementaryViewKinds) &&
    SupplementaryKinds(view.registrations) == c.registeredSupplementaryViewKinds
  }

  /** One request keeps the registrations in agreement with the kind list. */
  lemma RegisterKindKeepsAgreement<S, I, P>(c: Coordinator<S, I, P>, view: CollectionViewLog, kind: string)
    requires RegistrationsAgree(c, view)
    ensures var r := RegisterKindIfNeeded(c, view, kind); RegistrationsAgree(r.0, r.1)
  {
    if kind !in c.registeredSupplementaryViewKinds {
      var regs := RegisterKindIfNeeded(c, view, kind).1.registrations;
      assert regs[..|regs| - 1] == view.registrations;
    }
  }

  /** The supplementary view provider keeps the registrations in agreement with the kind
      list, and a clean slot dequeued after `prepareForReuse` ends up hosting exactly the built
      view, framed to its bounds. */
  lemma ProvideSupplementaryViewAfterReuse<S, I, P, V, B>(
    c: Coordinator<S, I, P>, view: CollectionViewLog, kind: string, indexPath: IndexPath,
    s: HostSlot<V, B>, build: (string, IndexPath) -> V)
    requires RegistrationsAgree(c, view)
    requires WellFormed(s) && Clean(s)
    ensures var r := ProvideSupplementaryView(c, view, kind, indexPath, PrepareForReuse(s), build);
            && RegistrationsAgree(r.0, r.1)
            && Clean(r.2) && WellFormed(r.2)
            && |r.2.subviews| == 1
            && r.2.subviews[0].rootView == build(kind, indexPath)
            && r.2.subviews[0].frame == s.bounds
  {
    RegisterKindKeepsAgreement(c, view, kind);
    ReuseThenSetMountsOne(s, build(kind, indexPath));
  }

  /** Over any sequence of requests, each kind is registered with the collection view at most
      once, earlier registrations stay in place, and every requested kind ends up registered. */
  lemma {:induction false} RegistrationOncePerKind<S, I, P>(c: Coordinator<S, I, P>, view: CollectionViewLog, kinds: seq<string>)
    requires RegistrationsAgree(c, view)
    ensures var r := RegisterAll(c, view, kinds);
            && RegistrationsAgree(r.0, r.1)
            && NoDuplicates(SupplementaryKinds(r.1.registrations))
            && |c.registeredSupplementaryViewKinds| <= |r.0.registeredSupplementaryViewKinds|
            && r.0.registeredSupplementaryViewKinds[..|c.registeredSupplementaryViewKinds|] == c.registeredSupplementaryViewKinds
            && (forall k :: k in kinds ==> k in r.0.registeredSupplementaryViewKinds)
            && (forall k :: k in r.0.registeredSupplementaryViewKinds ==> k in c.registeredSupplementaryViewKinds || k in kinds)
    decreases |kinds|
  {
    if kinds != [] {
      var step := RegisterKindIfNeeded(c, view, kinds[0]);
      var c1, view1 := step.0, step.1;
      RegisterKindKeepsAgreement(c, view, kinds[0]);
      RegistrationOncePerKind(c1, view1, kinds[1..]);
      var r := RegisterAll(c1, view1, kinds[1..]);
      assert r == RegisterAll(c, view, kinds);
      var before, mid, after := c.registeredSupplementaryViewKinds, c1.registeredSupplementaryViewKinds,
                                r.0.registeredSupplementaryViewKinds;
      assert mid[..|before|] == before;
      PrefixOfPrefix(before, mid, after);
      InPrefix(mid, after, kinds[0]);
      forall k | k in kinds ensures k in after {
        if k != kinds[0] {
          assert k in kinds[1..];
        }
      }
      forall k | k in after ensures k in before || k in kinds {
        if k !in before && k != kinds[0] {
          assert k in kinds[1..];
        }
      }
    }
  }

  /** A prefix of a prefix is a prefix. */
  lemma PrefixOfPrefix(a: seq<string>, b: seq<string>, c: seq<string>)
    requires |a| <= |b| && b[..|a|] == a
    requires |b| <= |c| && c[..|b|] == b
    ensures |a| <= |c| && c[..|a|] == a
  {
    assert c[..|a|] == c[..|b|][..|a|];
  }

  /** Whatever is in a prefix of a list is in the list. */
  lemma InPrefix(prefix: seq<string>, list: seq<string>, k: string)
    requires |prefix| <= |list| && list[..|prefix|] == prefix && k in prefix
    ensures k in list
  {
    var m :| 0 <= m < |prefix| && prefix[m] == k;
    assert list[m] == k;
  }

  /** Reloading the same rows twice in a row applies at most once: the second reload changes
      nothing. */
  lemma ReloadSameRowsTwiceIsNoOp<S, I, P>(
    c: Coordinator<S, I, P>, rows: seq<Row<S, I>>, provider: P,
    hash: seq<Row<S, I>> -> int, first: bool, second: bool)
    ensures var once := ReloadData(c, rows, provider, hash, first);
            && ReloadData(once, rows, provider, hash, second) == once
            && (c.dataSource.Some? ==> |once.dataSource.value.applies| <= |c.dataSource.value.applies| + 1)
  {
  }

  /** The first reload, from `makeUIView` on a fresh coordinator, always applies, without
      animation, a snapshot whose sections follow the rows. */
  lemma FirstReloadApplies<S, I, P>(rows: seq<Row<S, I>>, provider: P, hash: seq<Row<S, I>> -> int)
    ensures var r := MakeUIView(MakeCoordinator<S, I, P>(), rows, provider, hash);
            && r.0.dataSource.value.applies == [ApplyEvent(MakeSnapshot(rows), false)]
            && |r.0.dataSource.value.applies[0].snapshot.sections| == |rows|
            && (forall i :: 0 <= i < |rows| ==>
                  r.0.dataSource.value.applies[0].snapshot.sections[i].id == rows[i].section)
  {
    SectionOrderFollowsRows(rows);
  }

  // ----- The surface over its lifetime -----

  /** What can happen to a collection view after `makeUIView`: a re-render, the data source
      finishing an apply, or a request for a supplementary view of some kind. */
  datatype SurfaceEvent<S, I, P> =
    | Update(rows: seq<Row<S, I>>, provider: P)
    | Complete
    | RequestSupplementary(kind: string)

  /** One event. The data source delivers a completion only for an outstanding apply. */
  function Step<S(==), I, P>(
    st: (Coordinator<S, I, P>, CollectionViewLog), e: SurfaceEvent<S, I, P>,
    hash: seq<Row<S, I>> -> int): (Coordinator<S, I, P>, CollectionViewLog)
  {
    var (c, view) := st;
    match e
    case Update(rows, provider) => (UpdateUIView(c, rows, provider, hash), view)
    case Complete =>
      if c.dataSource.Some? && c.dataSource.value.completed < |c.dataSource.value.applies|
      then CompleteNextApply(c, view)
      else st
    case RequestSupplementary(kind) => RegisterKindIfNeeded(c, view, kind)
  }

  /** The events in order. */
  function Run<S(==), I, P>(
    st: (Coordinator<S, I, P>, CollectionViewLog), events: seq<SurfaceEvent<S, I, P>>,
    hash: seq<Row<S, I>> -> int): (Coordinator<S, I, P>, CollectionViewLog)
    decreases |events|
  {
    if events == [] then st else Run(Step(st, events[0], hash), events[1..], hash)
  }

  /** What holds between events: items are not focusable; every completed apply's completion
      handler requested exactly one focus update, and each of those saw focusable items; no more applies completed
      than were made; a hash is stored; supplementary registrations agree with the kind list. */
  ghost predicate SurfaceInvariant<S, I, P>(c: Coordinator<S, I, P>, view: CollectionViewLog)
  {
    && !c.isFocusable
    && c.dataSource.Some?
    && c.rowsHash.Some?
    && c.dataSource.value.completed <= |c.dataSource.value.applies|
    && |view.focusUpdates| == c.dataSource.value.completed
    && (forall i :: 0 <= i < |view.focusUpdates| ==> view.focusUpdates[i])
    && RegistrationsAgree(c, view)
  }

  /** `makeUIView` on a fresh coordinator establishes the invariant. */
  lemma MakeEstablishesInvariant<S, I, P>(rows: seq<Row<S, I>>, provider: P, hash: seq<Row<S, I>> -> int)
    ensures var r := MakeUIView(MakeCoordinator<S, I, P>(), rows, provider, hash);
            SurfaceInvariant(r.0, r.1)
  {
  }

  /** Every event keeps the invariant. */
  lemma StepPreservesInvariant<S, I, P>(
    st: (Coordinator<S, I, P>, CollectionViewLog), e: SurfaceEvent<S, I, P>, hash: seq<Row<S, I>> -> int)
    requires SurfaceInvariant(st.0, st.1)
    ensures var r := Step(st, e, hash); SurfaceInvariant(r.0, r.1)
  {
    var (c, view) := st;
    match e
    case Update(rows, provider) =>
    case Complete =>
    case RequestSupplementary(kind) =>
      if kind !in c.registeredSupplementaryViewKinds {
        var r := Step(st, e, hash);
        var regs := r.1.registrations;
        assert regs[..|regs| - 1] == view.registrations;
      }
  }

  /** Between events of any run, items are never focusable, yet each completed apply's
      completion handler requested one focus update during which they were; and no kind is ever registered twice. */
  lemma {:induction false} RunPreservesInvariant<S, I, P>(
    st: (Coordinator<S, I, P>, CollectionViewLog), events: seq<SurfaceEvent<S, I, P>>,
    hash: seq<Row<S, I>> -> int)
    requires SurfaceInvariant(st.0, st.1)
    ensures var r := Run(st, events, hash);
            && SurfaceInvariant(r.0, r.1)
            && !CanFocusItemAt(r.0, IndexPath(0, 0))
            && NoDuplicates(SupplementaryKinds(r.1.registrations))
    decreases |events|
  {
    if events != [] {
      StepPreservesInvariant(st, events[0], hash);
      RunPreservesInvariant(Step(st, events[0], hash), events[1..], hash);
    }
  }
}
