/** `PresentationObservable`, the state shared by the alert, sheet, toast and full screen
    cover contexts: an optional content builder `C` and an `isActive` flag. */
module Presentation {
  import opened Basics

  datatype PresentationState<C> = PresentationState(isActive: bool, content: Option<C>)

  /** The observable as created: inactive, no content. */
  function Init<C>(): (r: PresentationState<C>)
    ensures !r.isActive && r.content.None?
  {
    PresentationState(false, None)
  }

  /** Assigning `content`: the `didSet` observer makes `isActive` say whether there is any. */
  function SetContent<C>(p: PresentationState<C>, content: Option<C>): (r: PresentationState<C>)
    ensures r.content == content
    ensures r.isActive <==> r.content.Some?
  {
    var withContent := p.(content := content);
    withContent.(isActive := withContent.content.Some?)
  }

  /** `dismiss`: only `isActive` is cleared, the content stays. */
  function Dismiss<C>(p: PresentationState<C>): (r: PresentationState<C>)
    ensures !r.isActive
    ensures r.content == p.content
  {
    p.(isActive := false)
  }

  /** Assigning the public `isActive` property directly: nothing else changes. */
  function SetActive<C>(p: PresentationState<C>, isActive: bool): (r: PresentationState<C>)
    ensures r.isActive == isActive && r.content == p.content
  {
    p.(isActive := isActive)
  }

  /** `presentContent`: assigns the content, which activates the presentation. */
  function PresentContent<C>(p: PresentationState<C>, content: C): (r: PresentationState<C>)
    ensures r.isActive && r.content == Some(content)
  {
    SetContent(p, Some(content))
  }

  /** `dismiss` twice is `dismiss` once. */
  lemma DismissIdempotent<C>(p: PresentationState<C>)
    ensures Dismiss(Dismiss(p)) == Dismiss(p)
  {
  }

  /** Presenting after a dismiss makes the presentation active again. */
  lemma PresentAfterDismissActivates<C>(p: PresentationState<C>, content: C)
    ensures PresentContent(Dismiss(p), content).isActive
    ensures PresentContent(Dismiss(p), content) == PresentContent(p, content)
  {
  }

  /** After a dismiss the content is still there while `isActive` is false, so `isActive` no
      longer tells whether there is content. */
  lemma DismissBreaksCorrespondence<C>(p: PresentationState<C>, content: C)
    ensures var r := Dismiss(PresentContent(p, content));
            r.content.Some? && !r.isActive
  {
  }

  /** What can be done to the observable from outside. */
  datatype Action<C> = Present(content: C) | Assign(value: Option<C>) | DismissAction | AssignActive(isActive: bool)

  function Apply<C>(p: PresentationState<C>, a: Action<C>): PresentationState<C>
  {
    match a
    case Present(c) => PresentContent(p, c)
    case Assign(v) => SetContent(p, v)
    case DismissAction => Dismiss(p)
    case AssignActive(b) => SetActive(p, b)
  }

  function ApplyAll<C>(p: PresentationState<C>, actions: seq<Action<C>>): PresentationState<C>
    decreases |actions|
  {
    if actions == [] then p else ApplyAll(Apply(p, actions[0]), actions[1..])
  }

  /** No action assigns `true` to `isActive` directly. */
  ghost predicate NoDirectActivation<C>(actions: seq<Action<C>>)
  {
    forall i :: 0 <= i < |actions| ==> actions[i] != AssignActive(true)
  }

  /** Starting from a state where an active presentation has content, such as the initial
      one, that stays true under presents, content assignments, dismisses and direct writes
      of `false` to `isActive`. */
  lemma {:induction false} ActiveImpliesContent<C>(p: PresentationState<C>, actions: seq<Action<C>>)
    requires p.isActive ==> p.content.Some?
    requires NoDirectActivation(actions)
    ensures var r := ApplyAll(p, actions); r.isActive ==> r.content.Some?
    decreases |actions|
  {
    if actions != [] {
      assert NoDirectActivation(actions[1..]) by {
        forall i | 0 <= i < |actions[1..]| ensures actions[1..][i] != AssignActive(true) {
          assert actions[1..][i] == actions[i + 1];
        }
      }
      ActiveImpliesContent(Apply(p, actions[0]), actions[1..]);
    }
  }

  /** A direct write of `true` to `isActive` activates a presentation that has no content. */
  lemma DirectActivationWithoutContent<C>()
    ensures var r := ApplyAll(Init<C>(), [AssignActive(true)]);
            r.isActive && r.content.None?
  {
    var r := ApplyAll(Init<C>(), [AssignActive(true)]);
    assert r == ApplyAll(SetActive(Init<C>(), true), []);
  }
}
