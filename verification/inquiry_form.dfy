/** The inquiry form's submit handler and what it leaves behind in the page (static/adamus.js,
    lines 56-194): inline error elements with their one-shot input listeners, the focused field,
    and the submit button's timer-driven label sequence with its confirmation note. */
module InquiryForm {
  import opened TextOps
  import opened FormValidation
  import opened Wrappers

  /** An inline error element, inserted immediately before the control `field`. */
  datatype ErrorNode = ErrorNode(id: nat, field: FieldId, message: string)

  /** A registered `removeErrorOnInput` listener: the control it listens on and the error
      element it closes over. */
  datatype Listener = Listener(field: FieldId, errorId: nat)

  /** What the submit button shows: its text, its background colour, its disabled flag. */
  datatype ButtonLook = ButtonLook(text: string, background: string, disabled: bool)

  /** A pending `setTimeout` callback, with what its closure captured. */
  datatype Timer =
    | ShowReceived(originalText: string)
    | Restore(originalText: string)
    | RemoveConfirmation(node: nat)

  /** Where the button is in its sequence. */
  datatype Phase = Idle | Submitting | Received

  /** Whether the handler cancelled the browser's own submission of the form. */
  datatype SubmitOutcome = Prevented | NotPrevented

  const SubmittingLabel: string := "Submitting..."
  const ReceivedLabel: string := "Inquiry Received"
  const SubmittingBackground: string := "#666"
  const ReceivedBackground: string := "#4a4a4a"
  const RestoredBackground: string := "#1a1a1a"

  /** The elements of `s` not in `drop`, in their order. */
  function Without<T(!new)>(s: seq<T>, drop: set<T>): (r: seq<T>)
    ensures |r| <= |s|
    ensures forall x :: x in r <==> x in s && x !in drop
  {
    if s == [] then [] else (if s[0] in drop then [] else [s[0]]) + Without(s[1..], drop)
  }

  lemma {:induction false} WithoutTwice<T(!new)>(s: seq<T>, a: set<T>, b: set<T>)
    ensures Without(Without(s, a), b) == Without(s, a + b)
    decreases |s|
  {
    if s != [] {
      var head := if s[0] in a then [] else [s[0]];
      WithoutAppend(head, Without(s[1..], a), b);
      WithoutTwice(s[1..], a, b);
    }
  }

  lemma {:induction false} WithoutAppend<T(!new)>(s: seq<T>, t: seq<T>, drop: set<T>)
    ensures Without(s + t, drop) == Without(s, drop) + Without(t, drop)
    decreases |s|
  {
    if s != [] {
      assert (s + t)[0] == s[0] && (s + t)[1..] == s[1..] + t;
      WithoutAppend(s[1..], t, drop);
    } else {
      assert s + t == t;
    }
  }

  lemma {:induction false} WithoutNothing<T(!new)>(s: seq<T>, drop: set<T>)
    requires forall x | x in s :: x !in drop
    ensures Without(s, drop) == s
    decreases |s|
  {
    if s != [] {
      assert forall x | x in s[1..] :: x in s;
      WithoutNothing(s[1..], drop);
      assert [s[0]] + s[1..] == s;
    }
  }

  /** The error elements of `es` other than those numbered in `ids`, in their order. */
  function ErrorsWithout(es: seq<ErrorNode>, ids: set<nat>): (r: seq<ErrorNode>)
    ensures |r| <= |es|
    ensures forall e :: e in r <==> e in es && e.id !in ids
  {
    if es == [] then [] else (if es[0].id in ids then [] else [es[0]]) + ErrorsWithout(es[1..], ids)
  }

  lemma {:induction false} ErrorsWithoutAppend(s: seq<ErrorNode>, t: seq<ErrorNode>, ids: set<nat>)
    ensures ErrorsWithout(s + t, ids) == ErrorsWithout(s, ids) + ErrorsWithout(t, ids)
    decreases |s|
  {
    if s != [] {
      assert (s + t)[0] == s[0] && (s + t)[1..] == s[1..] + t;
      ErrorsWithoutAppend(s[1..], t, ids);
    } else {
      assert s + t == t;
    }
  }

  lemma {:induction false} ErrorsWithoutTwice(es: seq<ErrorNode>, a: set<nat>, b: set<nat>)
    ensures ErrorsWithout(ErrorsWithout(es, a), b) == ErrorsWithout(es, a + b)
    decreases |es|
  {
    if es != [] {
      var head := if es[0].id in a then [] else [es[0]];
      ErrorsWithoutAppend(head, ErrorsWithout(es[1..], a), b);
      ErrorsWithoutTwice(es[1..], a, b);
    }
  }

  lemma {:induction false} ErrorsWithoutNothing(es: seq<ErrorNode>)
    ensures ErrorsWithout(es, {}) == es
    decreases |es|
  {
    if es != [] {
      ErrorsWithoutNothing(es[1..]);
      assert [es[0]] + es[1..] == es;
    }
  }

  /** The pending timers that stand for a stage of the button sequence, in their order. */
  function Stages(ts: seq<Timer>): (r: seq<Timer>)
    ensures |r| <= |ts|
    ensures forall t :: t in r <==> t in ts && !t.RemoveConfirmation?
  {
    if ts == [] then [] else (if ts[0].RemoveConfirmation? then [] else [ts[0]]) + Stages(ts[1..])
  }

  lemma {:induction false} StagesAppend(s: seq<Timer>, t: seq<Timer>)
    ensures Stages(s + t) == Stages(s) + Stages(t)
    decreases |s|
  {
    if s != [] {
      assert (s + t)[0] == s[0] && (s + t)[1..] == s[1..] + t;
      StagesAppend(s[1..], t);
    } else {
      assert s + t == t;
    }
  }

  /** The listeners of `ls` registered on `f`, in their order. */
  function ListenersOn(ls: seq<Listener>, f: FieldId): (r: seq<Listener>)
    ensures forall l :: l in r <==> l in ls && l.field == f
  {
    if ls == [] then [] else (if ls[0].field == f then [ls[0]] else []) + ListenersOn(ls[1..], f)
  }

  /** The error elements the listeners `ls` close over. */
  function IdsOf(ls: seq<Listener>): (r: set<nat>)
    ensures forall n :: n in r <==> exists l | l in ls :: l.errorId == n
  {
    if ls == [] then {} else {ls[0].errorId} + IdsOf(ls[1..])
  }

  function Elems<T(!new)>(s: seq<T>): (r: set<T>)
    ensures forall x :: x in r <==> x in s
  {
    if s == [] then {} else {s[0]} + Elems(s[1..])
  }

  /** When every error element has its listener, and listeners closing over the same element
      listen on its control, the listeners on `f` close over exactly the errors shown for `f`. */
  lemma ListenersOnCloseOverField(es: seq<ErrorNode>, ls: seq<Listener>, f: FieldId)
    requires forall e | e in es :: Listener(e.field, e.id) in ls
    requires forall e, l | e in es && l in ls && l.errorId == e.id :: l.field == e.field
    ensures forall e | e in es :: e.id in IdsOf(ListenersOn(ls, f)) <==> e.field == f
  {
    forall e | e in es ensures e.id in IdsOf(ListenersOn(ls, f)) <==> e.field == f {
      if e.field == f {
        assert Listener(e.field, e.id) in ListenersOn(ls, f);
      }
    }
  }

  /** The failure a block reports for its verdict: none when the field passes. */
  function Reported(f: FieldId, verdict: Option<string>): (r: seq<Failure>)
    ensures |r| <= 1
  {
    if verdict.Some? then [Failure(f, verdict.value)] else []
  }

  /** The error elements one submit inserts for `fs`, numbered from `base` on. */
  function Rendered(fs: seq<Failure>, base: nat): (r: seq<ErrorNode>)
    ensures |r| == |fs|
  {
    if fs == [] then [] else [ErrorNode(base, fs[0].field, fs[0].message)] + Rendered(fs[1..], base + 1)
  }

  /** The listeners one submit registers for `fs`, each closing over its own error element. */
  function Subscribed(fs: seq<Failure>, base: nat): (r: seq<Listener>)
    ensures |r| == |fs|
  {
    if fs == [] then [] else [Listener(fs[0].field, base)] + Subscribed(fs[1..], base + 1)
  }

  /** Element `k` of what a submit shows is the error of the `k`-th failure, numbered `base + k`,
      and the listener that closes over it. */
  lemma {:induction false} RenderedAt(fs: seq<Failure>, base: nat, k: nat)
    requires k < |fs|
    ensures Rendered(fs, base)[k] == ErrorNode(base + k, fs[k].field, fs[k].message)
    ensures Subscribed(fs, base)[k] == Listener(fs[k].field, base + k)
    decreases k
  {
    if k > 0 {
      RenderedAt(fs[1..], base + 1, k - 1);
    }
  }

  /** Failures on distinct fields show error elements on distinct controls. */
  lemma RenderedFieldsDistinct(fs: seq<Failure>, base: nat)
    requires forall i, j | 0 <= i < j < |fs| :: fs[i].field != fs[j].field
    ensures forall i, j | 0 <= i < j < |fs| :: Rendered(fs, base)[i].field != Rendered(fs, base)[j].field
  {
    forall i, j | 0 <= i < j < |fs| ensures Rendered(fs, base)[i].field != Rendered(fs, base)[j].field {
      RenderedAt(fs, base, i);
      RenderedAt(fs, base, j);
    }
  }

  /** The error elements one submit inserts stand before distinct controls. */
  lemma FailuresOnDistinctControls(values: map<FieldId, string>, isMobile: bool, base: nat)
    ensures var es := Rendered(Failures(values, isMobile), base);
      forall i, j | 0 <= i < j < |es| :: es[i].field != es[j].field
  {
    FailuresAscending(values, isMobile);
    RenderedFieldsDistinct(Failures(values, isMobile), base);
  }

  /** Where focus is once every failing field has called `focus()`: the last one wins. */
  function FocusAfter(fs: seq<Failure>, prior: Option<FieldId>): Option<FieldId> {
    if fs == [] then prior else Some(fs[|fs| - 1].field)
  }

  lemma {:induction false} RenderedAppend(fs: seq<Failure>, h: seq<Failure>, base: nat)
    ensures Rendered(fs, base) + Rendered(h, base + |fs|) == Rendered(fs + h, base)
    ensures Subscribed(fs, base) + Subscribed(h, base + |fs|) == Subscribed(fs + h, base)
    decreases |fs|
  {
    if fs == [] {
      assert fs + h == h;
    } else {
      RenderedAppend(fs[1..], h, base + 1);
      assert (fs + h)[0] == fs[0] && (fs + h)[1..] == fs[1..] + h;
      Associative([ErrorNode(base, fs[0].field, fs[0].message)], Rendered(fs[1..], base + 1),
        Rendered(h, base + |fs|));
      Associative([Listener(fs[0].field, base)], Subscribed(fs[1..], base + 1),
        Subscribed(h, base + |fs|));
    }
  }

  /** Showing the failures `h` after those of `fs` is showing `fs + h`. */
  lemma ShowAppend(e0: seq<ErrorNode>, l0: seq<Listener>, fs: seq<Failure>, h: seq<Failure>, base: nat,
                   prior: Option<FieldId>)
    ensures e0 + Rendered(fs, base) + Rendered(h, base + |fs|) == e0 + Rendered(fs + h, base)
    ensures l0 + Subscribed(fs, base) + Subscribed(h, base + |fs|) == l0 + Subscribed(fs + h, base)
    ensures FocusAfter(h, FocusAfter(fs, prior)) == FocusAfter(fs + h, prior)
  {
    RenderedAppend(fs, h, base);
    Associative(e0, Rendered(fs, base), Rendered(h, base + |fs|));
    Associative(l0, Subscribed(fs, base), Subscribed(h, base + |fs|));
  }

  lemma Associative<T>(a: seq<T>, b: seq<T>, c: seq<T>)
    ensures a + (b + c) == a + b + c
  {
  }

  lemma FailuresOverCons(f: FieldId, rest: seq<FieldId>, values: map<FieldId, string>)
    ensures FailuresOver([f] + rest, values) == Hit(f, values) + FailuresOver(rest, values)
  {
    assert ([f] + rest)[1..] == rest;
  }

  /** The failures of the handler's two sequences of checks, block by block. */
  lemma CheckOrder(values: map<FieldId, string>)
    ensures Failures(values, true)
      == Hit(FullName, values) + Hit(Email, values) + Hit(Organization, values) + Hit(InquiryType, values)
    ensures Failures(values, false)
      == Hit(FirstName, values) + Hit(LastName, values) + Hit(Email, values)
         + Hit(Organization, values) + Hit(InquiryType, values)
  {
    MobileOrder(values);
    DesktopOrder(values);
  }

  /** The narrow layout checks the full name, then the shared blocks. */
  lemma MobileOrder(values: map<FieldId, string>)
    ensures Failures(values, true)
      == Hit(FullName, values) + Hit(Email, values) + Hit(Organization, values) + Hit(InquiryType, values)
  {
    var tail := [Email, Organization, InquiryType];
    var h0, h3, h4, h5 := Hit(FullName, values), Hit(Email, values), Hit(Organization, values), Hit(InquiryType, values);
    TailOrder(values);
    FailuresOverCons(FullName, tail, values);
    assert CheckedFields(true) == [FullName] + tail;
    Associative(h0, h3, h4 + h5);
    Associative(h0 + h3, h4, h5);
  }

  /** The wide layout checks the first name, the last name, then the shared blocks. */
  lemma DesktopOrder(values: map<FieldId, string>)
    ensures Failures(values, false)
      == Hit(FirstName, values) + Hit(LastName, values) + Hit(Email, values)
         + Hit(Organization, values) + Hit(InquiryType, values)
  {
    var tail := [Email, Organization, InquiryType];
    var h1, h2 := Hit(FirstName, values), Hit(LastName, values);
    var h3, h4, h5 := Hit(Email, values), Hit(Organization, values), Hit(InquiryType, values);
    TailOrder(values);
    var t := FailuresOver(tail, values);
    FailuresOverCons(LastName, tail, values);
    FailuresOverCons(FirstName, [LastName] + tail, values);
    assert CheckedFields(false) == [FirstName] + ([LastName] + tail);
    assert Failures(values, false) == h1 + (h2 + t);
    Associative(h2, h3, h4 + h5);
    Associative(h2 + h3, h4, h5);
    Associative(h1, h2, h3 + h4 + h5);
    Associative(h1 + h2, h3, h4 + h5);
    Associative(h1 + h2 + h3, h4, h5);
  }

  /** The blocks both layouts share, checked in their order. */
  lemma TailOrder(values: map<FieldId, string>)
    ensures FailuresOver([Email, Organization, InquiryType], values)
      == Hit(Email, values) + (Hit(Organization, values) + Hit(InquiryType, values))
  {
    FailuresOverCons(InquiryType, [], values);
    FailuresOverCons(Organization, [InquiryType], values);
    FailuresOverCons(Email, [Organization, InquiryType], values);
  }

  function TimerPhase(t: Timer): Phase {
    match t
    case ShowReceived(_) => Submitting
    case Restore(_) => Received
    case RemoveConfirmation(_) => Idle
  }

  /** The phase the pending stage timer stands for; Idle when none is pending. */
  function PhaseOf(ts: seq<Timer>): Phase {
    var stages := Stages(ts);
    if stages == [] then Idle else TimerPhase(stages[0])
  }

  /** The phase a stage callback leads to: each stage hands over to the next, and the last
      one returns the button to rest. */
  function NextPhase(p: Phase): Phase {
    match p
    case Idle => Submitting
    case Submitting => Received
    case Received => Idle
  }

  /** At most one stage of the button sequence is pending, the button is disabled exactly while
      one is, and its label and colour are those of that stage. */
  predicate ButtonMatches(b: ButtonLook, ts: seq<Timer>) {
    var stages := Stages(ts);
    |stages| <= 1 && b.disabled == (|stages| == 1)
    && (PhaseOf(ts) == Submitting ==> b.text == SubmittingLabel && b.background == SubmittingBackground)
    && (PhaseOf(ts) == Received ==> b.text == ReceivedLabel && b.background == ReceivedBackground)
  }

  function RemoveAt<T>(s: seq<T>, k: nat): seq<T>
    requires k < |s|
  {
    s[..k] + s[k + 1..]
  }

  /** Taking one timer out of the pending list leaves the stage timers other than it. */
  lemma {:induction false} StagesAfterRemoval(ts: seq<Timer>, k: nat)
    requires k < |ts|
    ensures Stages(ts) == Stages(ts[..k]) + Stages([ts[k]]) + Stages(ts[k + 1..])
    ensures Stages(RemoveAt(ts, k)) == Stages(ts[..k]) + Stages(ts[k + 1..])
  {
    assert ts == ts[..k] + ([ts[k]] + ts[k + 1..]);
    StagesAppend(ts[..k], [ts[k]] + ts[k + 1..]);
    StagesAppend([ts[k]], ts[k + 1..]);
    StagesAppend(ts[..k], ts[k + 1..]);
  }

  lemma {:induction false} StagesAfterAppend(ts: seq<Timer>, t: Timer)
    ensures Stages(ts + [t]) == Stages(ts) + (if t.RemoveConfirmation? then [] else [t])
  {
    StagesAppend(ts, [t]);
    assert [t][1..] == [];
  }

  lemma RemoveAtKeeps<T>(s: seq<T>, k: nat, x: T)
    requires k < |s| && x in s && x != s[k]
    ensures x in RemoveAt(s, k)
  {
    var j :| 0 <= j < |s| && s[j] == x;
    if j < k { assert RemoveAt(s, k)[j] == x; } else { assert RemoveAt(s, k)[j - 1] == x; }
  }

  /** A valid submit, from an enabled button, starts the sequence. */
  lemma StartStep(b: ButtonLook, ts: seq<Timer>, original: string)
    requires ButtonMatches(b, ts) && !b.disabled
    ensures PhaseOf(ts) == Idle
    ensures var ts' := ts + [ShowReceived(original)];
      ButtonMatches(ButtonLook(SubmittingLabel, SubmittingBackground, true), ts') && PhaseOf(ts') == Submitting
  {
    StagesAfterAppend(ts, ShowReceived(original));
  }

  /** The first timer turns "Submitting..." into "Inquiry Received", still disabled. */
  lemma ShowReceivedStep(b: ButtonLook, ts: seq<Timer>, k: nat, original: string)
    requires k < |ts| && ts[k] == ShowReceived(original) && ButtonMatches(b, ts)
    ensures b.disabled && PhaseOf(ts) == Submitting
    ensures var ts' := RemoveAt(ts, k) + [Restore(original)];
      ButtonMatches(ButtonLook(ReceivedLabel, ReceivedBackground, b.disabled), ts') && PhaseOf(ts') == Received
  {
    StagesAfterRemoval(ts, k);
    StagesAfterAppend(RemoveAt(ts, k), Restore(original));
  }

  /** The second timer restores the original text and enables the button. */
  lemma RestoreStep(b: ButtonLook, ts: seq<Timer>, k: nat, original: string, node: nat)
    requires k < |ts| && ts[k] == Restore(original) && ButtonMatches(b, ts)
    ensures b.disabled && PhaseOf(ts) == Received
    ensures var ts' := RemoveAt(ts, k) + [RemoveConfirmation(node)];
      ButtonMatches(ButtonLook(original, RestoredBackground, false), ts') && PhaseOf(ts') == Idle
  {
    StagesAfterRemoval(ts, k);
    StagesAfterAppend(RemoveAt(ts, k), RemoveConfirmation(node));
  }

  /** Removing a confirmation note does not touch the button. */
  lemma RemovalStep(b: ButtonLook, ts: seq<Timer>, k: nat, node: nat)
    requires k < |ts| && ts[k] == RemoveConfirmation(node) && ButtonMatches(b, ts)
    ensures ButtonMatches(b, RemoveAt(ts, k)) && PhaseOf(RemoveAt(ts, k)) == PhaseOf(ts)
  {
    StagesAfterRemoval(ts, k);
  }

  class InquiryPage {
    /** The value of each form control present in the page. */
    var values: map<FieldId, string>
    /** The values `form.reset()` brings back. */
    const defaults: map<FieldId, string>
    /** The inline error elements in the form, in the order they were inserted. */
    var errors: seq<ErrorNode>
    /** The `input` listeners still registered. */
    var listeners: seq<Listener>
    /** Number of the next element the page creates. */
    var nextNode: nat
    /** The control the handler last called `focus()` on; focus moved by the user is not modelled. */
    var focused: Option<FieldId>
    var button: ButtonLook
    /** The confirmation notes appended below the form and not yet removed. */
    var confirmations: seq<nat>
    /** The timers scheduled and not yet fired. */
    var timers: seq<Timer>

    /** Every error element in the form has its own listener on its control, and every element
        number in use was handed out before `nextNode`. */
    ghost predicate ErrorsValid()
      reads this`errors, this`listeners, this`nextNode
    {
      (forall e | e in errors :: e.id < nextNode && Listener(e.field, e.id) in listeners)
      && (forall l | l in listeners :: l.errorId < nextNode)
      && (forall e, l | e in errors && l in listeners && l.errorId == e.id :: l.field == e.field)
    }

    /** Every confirmation note still has the timer that removes it, and the button matches the
        stage timer pending. */
    ghost predicate ButtonValid()
      reads this`button, this`timers, this`confirmations
    {
      (forall c | c in confirmations :: RemoveConfirmation(c) in timers)
      && ButtonMatches(button, timers)
    }

    ghost predicate Valid()
      reads this
    {
      values.Keys == defaults.Keys && ErrorsValid() && ButtonValid()
    }

    function CurrentPhase(): Phase
      reads this
    {
      PhaseOf(timers)
    }

    constructor (initial: map<FieldId, string>, text: string, background: string)
      ensures Valid()
      ensures values == initial && defaults == initial && focused == None
      ensures errors == [] && listeners == [] && confirmations == [] && timers == []
      ensures button == ButtonLook(text, background, false) && CurrentPhase() == Idle
    {
      values := initial;
      defaults := initial;
      errors := [];
      listeners := [];
      nextNode := 0;
      focused := None;
      button := ButtonLook(text, background, false);
      confirmations := [];
      timers := [];
    }

    /** Every error element of an earlier attempt leaves the form; its listener stays. */
    method RemoveAllErrors()
      requires ErrorsValid()
      modifies this
      ensures ErrorsValid()
      ensures errors == []
      ensures listeners == old(listeners) && nextNode == old(nextNode)
      ensures values == old(values) && focused == old(focused) && button == old(button)
      ensures confirmations == old(confirmations) && timers == old(timers)
    {
      errors := [];
    }

    /** `showError`: a new error element right before `f`, and a listener on `f` that will
        remove it. */
    method ShowError(f: FieldId, message: string)
      requires ErrorsValid()
      modifies this
      ensures ErrorsValid()
      ensures errors == old(errors) + [ErrorNode(old(nextNode), f, message)]
      ensures listeners == old(listeners) + [Listener(f, old(nextNode))]
      ensures nextNode == old(nextNode) + 1
      ensures values == old(values) && focused == old(focused) && button == old(button)
      ensures confirmations == old(confirmations) && timers == old(timers)
    {
      errors := errors + [ErrorNode(nextNode, f, message)];
      listeners := listeners + [Listener(f, nextNode)];
      nextNode := nextNode + 1;
    }

    /** The page shows, after `e0`, `l0` and `f0`, the failures `fs`, numbered from `base`. */
    ghost predicate Shows(e0: seq<ErrorNode>, l0: seq<Listener>, f0: Option<FieldId>, base: nat, fs: seq<Failure>)
      reads this
    {
      errors == e0 + Rendered(fs, base) && listeners == l0 + Subscribed(fs, base)
      && nextNode == base + |fs| && focused == FocusAfter(fs, f0)
    }

    /** What a block does once it has its verdict: on a message, show the error and move focus
        to the control; the page then shows one more failure. */
    method Report(f: FieldId, verdict: Option<string>, ghost e0: seq<ErrorNode>, ghost l0: seq<Listener>,
                  ghost f0: Option<FieldId>, ghost base: nat, ghost fs: seq<Failure>) returns (passed: bool)
      requires ErrorsValid() && Shows(e0, l0, f0, base, fs)
      modifies this
      ensures ErrorsValid() && Shows(e0, l0, f0, base, fs + Reported(f, verdict))
      ensures passed == verdict.None?
      ensures values == old(values) && button == old(button)
      ensures confirmations == old(confirmations) && timers == old(timers)
    {
      ShowAppend(e0, l0, fs, Reported(f, verdict), base, f0);
      passed := true;
      if verdict.Some? {
        ShowError(f, verdict.value);
        focused := Some(f);
        passed := false;
      }
    }

    /** One block of the handler: skip an absent control; otherwise show the first message
        its value earns and move focus to it. What the page shows grows by that failure. */
    method CheckField(f: FieldId, ghost e0: seq<ErrorNode>, ghost l0: seq<Listener>, ghost f0: Option<FieldId>,
                      ghost base: nat, ghost fs: seq<Failure>) returns (passed: bool)
      requires ErrorsValid() && Shows(e0, l0, f0, base, fs)
      modifies this
      ensures ErrorsValid() && Shows(e0, l0, f0, base, fs + Hit(f, values))
      ensures passed == (Hit(f, values) == [])
      ensures values == old(values) && button == old(button)
      ensures confirmations == old(confirmations) && timers == old(timers)
    {
      var verdict := if f in values then Verdict(f, values[f]) else None;
      passed := Report(f, verdict, e0, l0, f0, base, fs);
    }

    /** The checks of the handler (lines 83-156): each block of the current layout in turn,
        `valid` turning false at the first failure and staying false. */
    method Validate(isMobile: bool) returns (valid: bool)
      requires ErrorsValid()
      modifies this
      ensures ErrorsValid()
      ensures var fs := Failures(old(values), isMobile);
        errors == old(errors) + Rendered(fs, old(nextNode))
        && listeners == old(listeners) + Subscribed(fs, old(nextNode))
        && nextNode == old(nextNode) + |fs|
        && focused == FocusAfter(fs, old(focused))
        && (valid <==> fs == [])
      ensures values == old(values) && button == old(button)
      ensures confirmations == old(confirmations) && timers == old(timers)
    {
      ghost var e0, l0, f0, base := errors, listeners, focused, nextNode;
      assert e0 + [] == e0 && l0 + [] == l0;
      ghost var fs: seq<Failure> := [];
      var passed: bool;
      valid := true;
      if isMobile {
        passed := CheckField(FullName, e0, l0, f0, base, fs);
        valid := valid && passed;
        fs := fs + Hit(FullName, values);
        assert fs == Hit(FullName, values);
      } else {
        passed := CheckField(FirstName, e0, l0, f0, base, fs);
        valid := valid && passed;
        fs := fs + Hit(FirstName, values);
        assert fs == Hit(FirstName, values);
        passed := CheckField(LastName, e0, l0, f0, base, fs);
        valid := valid && passed;
        fs := fs + Hit(LastName, values);
      }
      passed := CheckField(Email, e0, l0, f0, base, fs);
      valid := valid && passed;
      fs := fs + Hit(Email, values);
      passed := CheckField(Organization, e0, l0, f0, base, fs);
      valid := valid && passed;
      fs := fs + Hit(Organization, values);
      passed := CheckField(InquiryType, e0, l0, f0, base, fs);
      valid := valid && passed;
      fs := fs + Hit(InquiryType, values);
      CheckOrder(values);
      assert fs == Failures(values, isMobile);
    }

    /** The submit handler. It clears old errors, checks the fields of the current layout in
        order and, when one fails, cancels the submission and leaves the button alone;
        otherwise it starts the button sequence and lets the submission go ahead. */
    method Submit(isMobile: bool) returns (outcome: SubmitOutcome)
      requires Valid() && !button.disabled
      modifies this
      ensures Valid()
      ensures var fs := Failures(old(values), isMobile);
        errors == Rendered(fs, old(nextNode))
        && listeners == old(listeners) + Subscribed(fs, old(nextNode))
        && nextNode == old(nextNode) + |fs|
        && focused == FocusAfter(fs, old(focused))
        && (outcome == Prevented <==> fs != [])
        && (fs != [] ==> button == old(button) && timers == old(timers))
        && (fs == [] ==> button == ButtonLook(SubmittingLabel, SubmittingBackground, true)
                         && timers == old(timers) + [ShowReceived(old(button.text))])
      ensures forall i, j | 0 <= i < j < |errors| :: errors[i].field != errors[j].field
      ensures old(CurrentPhase()) == Idle && (CurrentPhase() == Idle || CurrentPhase() == Submitting)
      ensures values == old(values) && confirmations == old(confirmations)
    {
      RemoveAllErrors();
      ghost var fs, base := Failures(values, isMobile), nextNode;
      var valid := Validate(isMobile);
      assert errors == Rendered(fs, base);
      FailuresOnDistinctControls(values, isMobile, base);
      StartStep(button, timers, button.text);
      if !valid {
        return Prevented;
      }
      var originalText := button.text;
      button := ButtonLook(SubmittingLabel, SubmittingBackground, true);
      timers := timers + [ShowReceived(originalText)];
      outcome := NotPrevented;
    }

    /** `removeErrorOnInput` running for `l`: the error element it closes over leaves the form
        if it is still there, and the listener unregisters itself. */
    method RemoveErrorOnInput(l: Listener)
      requires ErrorsValid()
      modifies this
      ensures ErrorsValid()
      ensures errors == ErrorsWithout(old(errors), {l.errorId})
      ensures listeners == Without(old(listeners), {l})
      ensures values == old(values) && nextNode == old(nextNode) && focused == old(focused)
      ensures button == old(button) && confirmations == old(confirmations) && timers == old(timers)
    {
      errors := ErrorsWithout(errors, {l.errorId});
      listeners := Without(listeners, {l});
    }

    /** The user changes control `f` to `v`: every listener registered on `f` at that moment
        runs once, so the errors shown for `f` leave the form, together with their listeners,
        and nothing else does. */
    method Input(f: FieldId, v: string)
      requires Valid() && f in values
      modifies this
      ensures Valid()
      ensures values == old(values)[f := v]
      ensures errors == ErrorsWithout(old(errors), IdsOf(ListenersOn(old(listeners), f)))
      ensures forall e :: e in errors <==> e in old(errors) && e.field != f
      ensures listeners == Without(old(listeners), Elems(ListenersOn(old(listeners), f)))
      ensures nextNode == old(nextNode) && focused == old(focused) && button == old(button)
      ensures confirmations == old(confirmations) && timers == old(timers)
    {
      ghost var errors0, listeners0 := errors, listeners;
      values := values[f := v];
      var pending := ListenersOn(listeners, f);
      ghost var ids, all := IdsOf(pending), Elems(pending);
      ErrorsWithoutNothing(errors);
      WithoutNothing(listeners, {});
      while pending != []
        invariant ErrorsValid()
        invariant ErrorsWithout(errors, IdsOf(pending)) == ErrorsWithout(errors0, ids)
        invariant Without(listeners, Elems(pending)) == Without(listeners0, all)
        invariant values == old(values)[f := v] && nextNode == old(nextNode) && focused == old(focused)
        invariant button == old(button) && confirmations == old(confirmations) && timers == old(timers)
      {
        var l := pending[0];
        ghost var errorsBefore, listenersBefore := errors, listeners;
        RemoveErrorOnInput(l);
        ErrorsWithoutTwice(errorsBefore, {l.errorId}, IdsOf(pending[1..]));
        WithoutTwice(listenersBefore, {l}, Elems(pending[1..]));
        pending := pending[1..];
      }
      ErrorsWithoutNothing(errors);
      WithoutNothing(listeners, {});
      ListenersOnCloseOverField(errors0, listeners0, f);
    }

    /** The first callback, 1500 ms after a valid submit: the button announces the inquiry as
        received, stays disabled, and schedules the second callback. */
    method AnnounceReceived(k: nat)
      requires Valid() && k < |timers| && timers[k].ShowReceived?
      modifies this
      ensures Valid()
      ensures button == ButtonLook(ReceivedLabel, ReceivedBackground, true)
      ensures timers == RemoveAt(old(timers), k) + [Restore(old(timers[k]).originalText)]
      ensures old(CurrentPhase()) == Submitting && CurrentPhase() == Received
      ensures values == old(values) && confirmations == old(confirmations) && nextNode == old(nextNode)
      ensures errors == old(errors) && listeners == old(listeners) && focused == old(focused)
    {
      var original := timers[k].originalText;
      var rest := RemoveAt(timers, k);
      forall c | c in confirmations ensures RemoveConfirmation(c) in rest {
        RemoveAtKeeps(timers, k, RemoveConfirmation(c));
      }
      ShowReceivedStep(button, timers, k, original);
      button := ButtonLook(ReceivedLabel, ReceivedBackground, button.disabled);
      timers := rest + [Restore(original)];
    }

    /** The second callback, 2000 ms later: the button gets its original text back and is
        enabled, the form is reset, and a confirmation note is appended with a callback that
        removes it. */
    method RestoreButton(k: nat)
      requires Valid() && k < |timers| && timers[k].Restore?
      modifies this
      ensures Valid()
      ensures button == ButtonLook(old(timers[k]).originalText, RestoredBackground, false)
      ensures values == defaults
      ensures confirmations == old(confirmations) + [old(nextNode)]
      ensures timers == RemoveAt(old(timers), k) + [RemoveConfirmation(old(nextNode))]
      ensures nextNode == old(nextNode) + 1
      ensures old(CurrentPhase()) == Received && CurrentPhase() == Idle
      ensures errors == old(errors) && listeners == old(listeners) && focused == old(focused)
    {
      var original := timers[k].originalText;
      var rest := RemoveAt(timers, k);
      forall c | c in confirmations ensures RemoveConfirmation(c) in rest {
        RemoveAtKeeps(timers, k, RemoveConfirmation(c));
      }
      RestoreStep(button, timers, k, original, nextNode);
      button := ButtonLook(original, RestoredBackground, false);
      values := defaults;
      confirmations := confirmations + [nextNode];
      timers := rest + [RemoveConfirmation(nextNode)];
      nextNode := nextNode + 1;
    }

    /** The third callback, 4000 ms later: its confirmation note leaves the page. */
    method RemoveConfirmationNote(k: nat)
      requires Valid() && k < |timers| && timers[k].RemoveConfirmation?
      modifies this
      ensures Valid()
      ensures confirmations == Without(old(confirmations), {old(timers[k]).node})
      ensures timers == RemoveAt(old(timers), k)
      ensures CurrentPhase() == old(CurrentPhase())
      ensures button == old(button) && values == old(values) && nextNode == old(nextNode)
      ensures errors == old(errors) && listeners == old(listeners) && focused == old(focused)
    {
      var node := timers[k].node;
      var rest := RemoveAt(timers, k);
      forall c | c in confirmations && c != node ensures RemoveConfirmation(c) in rest {
        RemoveAtKeeps(timers, k, RemoveConfirmation(c));
      }
      RemovalStep(button, timers, k, node);
      confirmations := Without(confirmations, {node});
      timers := rest;
    }

    /** The event loop runs the pending timer `k`, whichever it is. */
    method FireTimer(k: nat)
      requires Valid() && k < |timers|
      modifies this
      ensures Valid()
      ensures match old(timers[k])
        case ShowReceived(o) =>
          old(CurrentPhase()) == Submitting && CurrentPhase() == NextPhase(old(CurrentPhase()))
          && button == ButtonLook(ReceivedLabel, ReceivedBackground, true)
          && timers == RemoveAt(old(timers), k) + [Restore(o)]
          && values == old(values) && confirmations == old(confirmations) && nextNode == old(nextNode)
        case Restore(o) =>
          old(CurrentPhase()) == Received && CurrentPhase() == NextPhase(old(CurrentPhase()))
          && button == ButtonLook(o, RestoredBackground, false) && values == defaults
          && confirmations == old(confirmations) + [old(nextNode)]
          && timers == RemoveAt(old(timers), k) + [RemoveConfirmation(old(nextNode))]
          && nextNode == old(nextNode) + 1
        case RemoveConfirmation(n) =>
          CurrentPhase() == old(CurrentPhase())
          && confirmations == Without(old(confirmations), {n}) && timers == RemoveAt(old(timers), k)
          && button == old(button) && values == old(values) && nextNode == old(nextNode)
      ensures errors == old(errors) && listeners == old(listeners) && focused == old(focused)
    {
      match timers[k]
      case ShowReceived(_) => AnnounceReceived(k);
      case Restore(_) => RestoreButton(k);
      case RemoveConfirmation(_) => RemoveConfirmationNote(k);
    }
  }
}
