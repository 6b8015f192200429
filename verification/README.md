# SwiftUIKit core, modelled in Dafny

This project models the stateful parts of SwiftUIKit, a library of SwiftUI wrappers over UIKit.

**`CollectionView`** shows `rows` (section identifier plus items) in a `UICollectionView` fed by a diffable data source.
- `Snapshots` builds the data-source snapshot from the rows, one row at a time.
- `CollectionViews` models the `Coordinator` state as an immutable record:
  - `reloadData` compares the rows' hash with the stored one and calls `apply` only when they differ.
  - The apply's completion handler runs the focus handshake: items become focusable, a focus update runs, and items become unfocusable again.
  - Supplementary-view kinds are registered with the collection view at most once each.
  - `makeUIView` reloads without animation, and `updateUIView` reloads with animation.
- `HostSlots` models the lifecycle shared by `HostCell` and `HostSupplementaryView`:
  - `prepareForReuse` removes the hosting controller's view and drops the controller.
  - Assigning a hosted view builds a new hosting controller and adds its view as a subview.
  - The source does not remove the previous view when a hosted view is assigned. The model keeps that behaviour: `SetTwiceKeepsBothMounted` shows two mounted views after two assignments with no reuse in between.
  - `ReuseThenSetMountsOne` shows that the dequeue path, a reuse followed by an assignment, leaves exactly one when it starts from a clean slot (at most one hosting subview, the current controller's).
  - A view leaked by two assignments is never removed, because a reuse removes only the current controller's view (`LeakedViewSurvivesReuse`, `LeakedViewAfterDequeue`).

**The simple pickers.** `MultiPicker` treats the bound `selection` array as a set keyed by `id`. `SinglePicker` compares its one selection by `id` and never overwrites a selection that has the same id.

**`PresentationObservable`** is the two-field state behind the presentation contexts. Assigning `content` sets `isActive` to whether there is content. `dismiss` clears `isActive` and keeps the content. `isActive` is also a public property that clients may assign directly; writing `true` to it activates a presentation without content.

The diffable data source, the collection view and the focus engine are treated as outside collaborators. Each is a log of what it was asked to do:
- `DataSource.applies` records the applies, each with its snapshot and animation flag.
- `CollectionViewLog.registrations` records the view-class registrations.
- `CollectionViewLog.focusUpdates` records what `canFocusItemAt` answered during each focus update that an apply's completion handler requested.

`rows.hashValue` is the function parameter `hash`. Nothing is assumed about it, so the model proves "equal rows, no second apply" and never "different rows, an apply". The identity of a hosting controller object is an id drawn from a counter on the slot.

`handleWillSetHostedView` does not tear down the previous hosting view. The registered kinds are an array, checked with `contains` before appending.

## Model

| member | source | states |
|---|---|---|
| Basics.RemoveAll | Demo/Shared/Sources/SwiftUIKit/Pickers/SimplePicker/SimpleMultiPicker.swift:55 | `removeAll(where:)` keeps no matching element, only elements of the input, and every non-matching element of the input |
| Basics.RemoveAllConcat | Demo/Shared/Sources/SwiftUIKit/Pickers/SimplePicker/SimpleMultiPicker.swift:55 | removal distributes over concatenation, so the survivors keep their relative order |
| Basics.RemoveAllNoMatch | Demo/Shared/Sources/SwiftUIKit/Pickers/SimplePicker/SimpleMultiPicker.swift:55 | when nothing matches, removal returns the array unchanged |
| Basics.RemoveAllSingleMatch | Sources/SwiftUIKit/Views/Collections/CollectionView.swift:229 | when exactly one position matches, removal cuts out exactly that position |
| Basics.RemoveAllKeepsKeysDistinct | Demo/Shared/Sources/SwiftUIKit/Pickers/SimplePicker/SimpleMultiPicker.swift:55 | removal never makes two survivors share a key |
| Snapshots.MakeSnapshot | Sources/SwiftUIKit/Views/Collections/CollectionView.swift:131-138 | the snapshot has exactly one section per row |
| Snapshots.SectionOrderFollowsRows | Sources/SwiftUIKit/Views/Collections/CollectionView.swift:131-138 | the snapshot's sections are the rows' sections in the rows' order, whatever the rows are |
| Snapshots.SnapshotMatchesRows | Sources/SwiftUIKit/Views/Collections/CollectionView.swift:131-138 | with distinct section identifiers, snapshot section i holds exactly row i's items, in order |
| HostSlots.NewSlot | Sources/SwiftUIKit/Views/Collections/CollectionView.swift:183-185 | a new host slot has no controller, no hosting subview and the given bounds, and is well formed and clean |
| HostSlots.PrepareForReuse | Sources/SwiftUIKit/Views/Collections/CollectionView.swift:228-231 | the controller is dropped, its view leaves the subviews, every other subview stays, and a slot without a controller is left as it was |
| HostSlots.SetHostedView | Sources/SwiftUIKit/Views/Collections/CollectionView.swift:233-240 | nil changes nothing; otherwise a new controller for the view becomes `hostController`, its view's frame is the slot's bounds, and it is appended to the subviews with the earlier ones kept |
| HostSlots.PrepareForReusePreservesWellFormed | Sources/SwiftUIKit/Views/Collections/CollectionView.swift:228-231 | after a reuse, controller identities among the subviews are still distinct |
| HostSlots.PrepareForReuseRemovesOne | Sources/SwiftUIKit/Views/Collections/CollectionView.swift:228-231 | in a well-formed slot, a reuse removes exactly the controller's view and keeps the rest in order |
| HostSlots.PrepareForReuseIdempotent | Sources/SwiftUIKit/Views/Collections/CollectionView.swift:228-231 | `prepareForReuse` twice equals once |
| HostSlots.SetTwiceKeepsBothMounted | Sources/SwiftUIKit/Views/Collections/CollectionView.swift:233-240 | from any slot, two assignments without a reuse leave both hosting views as subviews, with only the second referenced by `hostController` |
| HostSlots.ReuseThenSetMountsOne | Sources/SwiftUIKit/Views/Collections/CollectionView.swift:228-240 | from a clean slot, a reuse followed by an assignment leaves exactly one hosting subview: the new view, framed to the slot's bounds |
| HostSlots.LeakedViewSurvivesReuse | Sources/SwiftUIKit/Views/Collections/CollectionView.swift:228-240 | after two assignments and a reuse, the first controller's view is still a subview, although no controller refers to it |
| HostSlots.LeakedViewAfterDequeue | Sources/SwiftUIKit/Views/Collections/CollectionView.swift:228-240 | from a new slot, assign x, assign y, reuse, assign z leaves two hosting subviews, x and z, so the slot is not clean |
| CollectionViews.MakeCoordinator | Sources/SwiftUIKit/Views/Collections/CollectionView.swift:166-170 | a new coordinator has no data source, no layout provider, no stored hash, no registered kinds, and is not focusable |
| CollectionViews.ReloadData | Sources/SwiftUIKit/Views/Collections/CollectionView.swift:140-154 | the layout provider is always stored; with no data source nothing else changes; otherwise a snapshot of the rows is applied exactly when the stored hash differs from the rows' hash, and afterwards the stored hash is the rows' hash |
| CollectionViews.CreateCollectionView | Sources/SwiftUIKit/Views/Collections/CollectionView.swift:96-102 | a new collection view has exactly the host cell class registered, under `hostCell` |
| CollectionViews.MakeUIView | Sources/SwiftUIKit/Views/Collections/CollectionView.swift:77-84 | the coordinator gets a new data source before the reload, so a coordinator without the rows' hash gets exactly one non-animated apply of the rows' snapshot |
| CollectionViews.UpdateUIView | Sources/SwiftUIKit/Views/Collections/CollectionView.swift:86-88 | when the rows' hash equals the stored one, or there is no data source yet, an update only stores the layout provider; otherwise it adds exactly one animated apply of the rows' snapshot, stores the new hash and leaves the rest alone |
| CollectionViews.FocusHandshake | Sources/SwiftUIKit/Views/Collections/CollectionView.swift:146-174 | the focus update requested by the completion handler runs while `canFocusItemAt` answers true, and afterwards the coordinator is not focusable and nothing else has changed |
| CollectionViews.CompleteNextApply | Sources/SwiftUIKit/Views/Collections/CollectionView.swift:146-150 | completing an outstanding apply counts it as completed, runs exactly one focus update, which sees focusable items, and leaves the coordinator unfocusable; nothing else in the coordinator or the collection view changes |
| CollectionViews.RegisterKindIfNeeded | Sources/SwiftUIKit/Views/Collections/CollectionView.swift:121-124 | an absent kind is registered once and appended; a present kind changes nothing; the kind list stays duplicate-free |
| CollectionViews.ProvideSupplementaryView | Sources/SwiftUIKit/Views/Collections/CollectionView.swift:119-128 | registration goes through the register-only-if-absent step, so the kind ends up registered once; the dequeued view hosts the built supplementary view as one more subview, framed to its bounds |
| CollectionViews.ProvideCell | Sources/SwiftUIKit/Views/Collections/CollectionView.swift:105-108 | the dequeued cell hosts the built cell as one more subview, framed to the cell's bounds |
| CollectionViews.ProvideCellAfterReuse | Sources/SwiftUIKit/Views/Collections/CollectionView.swift:105-108 | a cell that was clean before `prepareForReuse` ends up hosting exactly the built cell, framed to its bounds |
| CollectionViews.ProvideSupplementaryViewAfterReuse | Sources/SwiftUIKit/Views/Collections/CollectionView.swift:119-128 | the supplementary provider keeps the registrations equal to the duplicate-free kind list, and a view that was clean before `prepareForReuse` ends up hosting exactly the built view |
| CollectionViews.RegisterKindKeepsAgreement | Sources/SwiftUIKit/Views/Collections/CollectionView.swift:121-124 | one request keeps the collection view's supplementary registrations equal to the duplicate-free kind list |
| CollectionViews.RegistrationOncePerKind | Sources/SwiftUIKit/Views/Collections/CollectionView.swift:118-124 | across any sequence of requests, each kind is registered with the collection view at most once, earlier kinds stay first, and every requested kind ends up registered |
| CollectionViews.ReloadSameRowsTwiceIsNoOp | Sources/SwiftUIKit/Views/Collections/CollectionView.swift:144-153 | reloading the same rows a second time changes nothing, so two reloads apply at most once |
| CollectionViews.FirstReloadApplies | Sources/SwiftUIKit/Views/Collections/CollectionView.swift:77-84 | `makeUIView` on a fresh coordinator applies once, without animation, a snapshot whose sections follow the rows |
| CollectionViews.MakeEstablishesInvariant | Sources/SwiftUIKit/Views/Collections/CollectionView.swift:77-84 | after `makeUIView`, items are not focusable, nothing has completed, and the registrations agree with the kind list |
| CollectionViews.StepPreservesInvariant | Sources/SwiftUIKit/Views/Collections/CollectionView.swift:86-174 | an update, an apply completion or a supplementary request keeps that invariant |
| CollectionViews.RunPreservesInvariant | Sources/SwiftUIKit/Views/Collections/CollectionView.swift:140-174 | between events, `canFocusItemAt` answers false, every completed apply's completion handler requested exactly one focus update, which saw focusable items, and no kind is registered twice |
| MultiPicker.IsSelected | Demo/Shared/Sources/SwiftUIKit/Pickers/SimplePicker/SimpleMultiPicker.swift:58-60 | a value is selected exactly when some element of the selection has its id |
| MultiPicker.Select | Demo/Shared/Sources/SwiftUIKit/Pickers/SimplePicker/SimpleMultiPicker.swift:62-65 | afterwards the value is selected; an already selected value changes nothing; otherwise the value is appended and the old elements stay in front |
| MultiPicker.Deselect | Demo/Shared/Sources/SwiftUIKit/Pickers/SimplePicker/SimpleMultiPicker.swift:53-56 | afterwards the value is not selected; an unselected value changes nothing; elements with other ids all stay and nothing new appears |
| MultiPicker.Toggle | Demo/Shared/Sources/SwiftUIKit/Pickers/SimplePicker/SimpleMultiPicker.swift:67-69 | toggling flips whether the value is selected |
| MultiPicker.ToggleLeavesOtherIds | Demo/Shared/Sources/SwiftUIKit/Pickers/SimplePicker/SimpleMultiPicker.swift:53-69 | toggling does not change whether a value with another id is selected |
| MultiPicker.DeselectLeavesOtherIds | Demo/Shared/Sources/SwiftUIKit/Pickers/SimplePicker/SimpleMultiPicker.swift:53-56 | `deselect` leaves the selection state of every value with another id as it was |
| MultiPicker.DeselectKeepsOrder | Demo/Shared/Sources/SwiftUIKit/Pickers/SimplePicker/SimpleMultiPicker.swift:53-56 | deselecting keeps the relative order of the remaining elements |
| MultiPicker.ToggleTwiceRestores | Demo/Shared/Sources/SwiftUIKit/Pickers/SimplePicker/SimpleMultiPicker.swift:53-69 | toggling an unselected value twice restores the selection exactly |
| MultiPicker.ToggleTwiceMovesSelectedToEnd | Demo/Shared/Sources/SwiftUIKit/Pickers/SimplePicker/SimpleMultiPicker.swift:53-69 | with distinct ids, toggling a selected value twice removes its entry and appends the toggled value at the end |
| MultiPicker.SelectKeepsIdsDistinct | Demo/Shared/Sources/SwiftUIKit/Pickers/SimplePicker/SimpleMultiPicker.swift:62-65 | `select` keeps the selected ids pairwise distinct |
| MultiPicker.DeselectKeepsIdsDistinct | Demo/Shared/Sources/SwiftUIKit/Pickers/SimplePicker/SimpleMultiPicker.swift:53-56 | `deselect` keeps the selected ids pairwise distinct |
| MultiPicker.ToggleKeepsIdsDistinct | Demo/Shared/Sources/SwiftUIKit/Pickers/SimplePicker/SimpleMultiPicker.swift:67-69 | `toggle` keeps the selected ids pairwise distinct |
| SinglePicker.IsSelected | Demo/Shared/Sources/SwiftUIKit/Pickers/SimplePicker/SimpleSinglePicker.swift:53-55 | a value is selected exactly when the multiple picker would call it selected in a selection holding only the current one, that is, when the ids agree |
| SinglePicker.Select | Demo/Shared/Sources/SwiftUIKit/Pickers/SimplePicker/SimpleSinglePicker.swift:57-60 | afterwards the value is selected; a value with the selected id leaves the selection unchanged; any other value replaces it |
| SinglePicker.SelectIdempotent | Demo/Shared/Sources/SwiftUIKit/Pickers/SimplePicker/SimpleSinglePicker.swift:57-60 | selecting twice equals selecting once |
| SinglePicker.SelectDoesNotOverwriteSameId | Demo/Shared/Sources/SwiftUIKit/Pickers/SimplePicker/SimpleSinglePicker.swift:58 | any value with the selected id that differs from the selection in another field does not replace the selection |
| Presentation.Init | Demo/Shared/Sources/SwiftUIKit/Presentation/PresentationContext.swift:40-44 | a new observable is inactive and has no content |
| Presentation.SetContent | Demo/Shared/Sources/SwiftUIKit/Presentation/PresentationContext.swift:44-46 | after assigning content, `isActive` is true exactly when there is content |
| Presentation.Dismiss | Demo/Shared/Sources/SwiftUIKit/Presentation/PresentationContext.swift:50-52 | `dismiss` makes the observable inactive and keeps the content |
| Presentation.SetActive | Demo/Shared/Sources/SwiftUIKit/Presentation/PresentationContext.swift:42 | a direct write to `isActive` sets it and leaves the content alone |
| Presentation.PresentContent | Demo/Shared/Sources/SwiftUIKit/Presentation/PresentationContext.swift:54-56 | presenting stores the content and activates the observable |
| Presentation.DismissIdempotent | Demo/Shared/Sources/SwiftUIKit/Presentation/PresentationContext.swift:50-52 | `dismiss` twice equals once |
| Presentation.PresentAfterDismissActivates | Demo/Shared/Sources/SwiftUIKit/Presentation/PresentationContext.swift:44-56 | presenting after a dismiss activates again, exactly as if there had been no dismiss |
| Presentation.DismissBreaksCorrespondence | Demo/Shared/Sources/SwiftUIKit/Presentation/PresentationContext.swift:50-52 | after presenting and then dismissing, content is present while `isActive` is false |
| Presentation.ActiveImpliesContent | Demo/Shared/Sources/SwiftUIKit/Presentation/PresentationContext.swift:42-56 | under any sequence of presents, content assignments, dismisses and direct writes of `false` to `isActive`, an active observable has content |
| Presentation.DirectActivationWithoutContent | Demo/Shared/Sources/SwiftUIKit/Presentation/PresentationContext.swift:42 | writing `true` to `isActive` on a new observable makes it active with no content |

## Left out

- Diffing, moves and animation inside the diffable data source: these happen in UIKit. An apply is only recorded with its snapshot and animation flag.
- Apply timing: UIKit runs completion handlers asynchronously. The model delivers each completion as a separate event, oldest apply first, and only for an apply that was made. Whether a new render queues or merges while an apply is still in flight is UIKit's choice, so the model does not decide it.
- Duplicate identifiers in a snapshot: `NSDiffableDataSourceSnapshot` needs section identifiers unique, and item identifiers unique across the whole snapshot. Depending on the OS version, it raises or keeps one copy. The model does not reject them:
  - `MakeSnapshot` keeps duplicate items, within a section and across sections.
  - It appends a row's items to every section that already carries that row's identifier.
  - `SnapshotMatchesRows` requires distinct sections and says nothing about duplicate items.
- Dequeue (`dequeueReusableCell` and `dequeueReusableSupplementaryView`), including the nil returned when the cast to the host class fails: the dequeued slot is a parameter of the providers.
- The layout (`createLayout`, the section layout provider closures, `CollectionViewLayout+VerticalGrid.swift`): these build UIKit layout objects from floating-point sizes. The provider is an opaque value that `reloadData` stores.
- `UIHostingController` rendering, the `ignoreSafeArea` flag and the autoresizing mask: later bounds changes are not modelled. The `guard let hostView` branch is left out because a hosting controller always has a view.
- `canFocusItemAt`'s index path: the answer does not depend on it.
- RegisterKindIfNeeded: kinds are Dafny strings compared code point by code point. Swift's `String ==`, which `contains` uses, treats canonically equivalent strings as equal. Two requests for the kinds `"\u00E9"` and `"e\u0301"` therefore register once in the source but twice in the model. Unicode canonical equivalence is not modelled.
- ProvideCell and ProvideSupplementaryView: `build` stands for the `cell` or `supplementaryView` builder of the `CollectionView` value that `makeUIView` ran on. The data source and its supplementary provider are created only there, and their closures keep that value's builders. Later renders go through `updateUIView`, which refreshes only the section layout provider. The model takes `build` as a parameter and does not tie it to the first render.
- Focus updates the focus engine runs on its own, outside an apply's completion handler: they are not events of the model. During them `canFocusItemAt` answers false, so the claim that every recorded focus update saw focusable items covers only the updates the completion handler requests.
- The pickers' `body` (one button per option) and `SimplePicker.swift`'s button builder: these are view composition. The `selection` binding is the value passed in and returned.
- The presentation contexts built on `PresentationObservable` (full screen cover, sheet, alert, toast), image picker, document camera, async image, snapshot rendering, search bar, styles and demo screens: these are view glue over system frameworks.
- The content builder closure `() -> Content`: it is an opaque value `C`.
- SwiftUI observation (`@Published` change notifications): it has no effect on the state.
