/**
 The typewriter sequencer of the portfolio's hero banner.

 The banner cycles through a fixed list of role strings. While typing, each
 timer tick reveals one more character of the current role; once the role is
 fully shown the sequencer pauses, and after the pause it moves on to the next
 role, wrapping around at the end of the list.

 React state, the closure-local cursor and the timers are flattened into one
 immutable `State`; every timer firing (or direct call of the typing closure)
 is one application of `Step`.
 */
module Typewriter {

  import ModArith

  /** The sequencer state: React's `roleIndex`, `displayText` and `isTyping`,
      plus the typing closure's local `currentIndex` (here `cursor`). */
  datatype State = State(roleIndex: nat, cursor: nat, displayText: string, isTyping: bool)

  /** The three transitions of the typing effect. */
  datatype Transition = Reveal | Complete | Advance

  /** The only failure: a role list with nothing in it to type. */
  datatype Error = NoRoles

  datatype Outcome<T> = Ok(value: T) | Err(error: Error)

  /** Delay, in milliseconds, of the timer re-armed after a reveal. */
  const TypingDelay: nat := 50

  /** Delay, in milliseconds, of the pause between a completed role and the next one. */
  const HoldDelay: nat := 2000

  /** The state the hero banner mounts with. */
  const Initial: State := State(0, 0, "", true)

  /** Indices are in range: the role exists and the cursor lies within it. */
  predicate WellFormed(roles: seq<string>, s: State) {
    && |roles| > 0
    && s.roleIndex < |roles|
    && s.cursor <= |roles[s.roleIndex]|
  }

  function CurrentRole(roles: seq<string>, s: State): string
    requires s.roleIndex < |roles|
  {
    roles[s.roleIndex]
  }

  /** What holds in every state the sequencer can reach: a pause only follows a
      complete role; once a character has been revealed the text is exactly the
      revealed prefix; before the first reveal of a role the text is either
      still empty or the whole of some role shown earlier. */
  predicate Invariant(roles: seq<string>, s: State) {
    && WellFormed(roles, s)
    && (!s.isTyping ==> s.cursor == |CurrentRole(roles, s)|)
    && (s.cursor > 0 ==> s.displayText == CurrentRole(roles, s)[..s.cursor])
    && (s.cursor == 0 ==> s.displayText == "" || s.displayText in roles)
  }

  /** Mounting the banner. A role list with no roles cannot be typed from: the
      first look-up of the current role's length has nothing to read. */
  function Start(roles: seq<string>): (r: Outcome<State>)
    ensures r.Ok? <==> |roles| > 0
    ensures r.Ok? ==> Invariant(roles, r.value)
    ensures r.Ok? ==> r.value.roleIndex == 0 && r.value.cursor == 0 && r.value.isTyping
    ensures r.Ok? ==> r.value.displayText == ""
  {
    if |roles| == 0 then Err(NoRoles) else Ok(Initial)
  }

  /** The transition the pending timer (or the effect's direct call) performs
      next. Only the advance can fire while the sequencer is paused. */
  function Next(roles: seq<string>, s: State): (t: Transition)
    requires WellFormed(roles, s)
    ensures t == Reveal ==> s.isTyping && s.cursor < |CurrentRole(roles, s)|
    ensures t == Complete ==> s.isTyping && s.cursor == |CurrentRole(roles, s)|
    ensures t == Advance <==> !s.isTyping
  {
    if !s.isTyping then Advance
    else if s.cursor < |CurrentRole(roles, s)| then Reveal
    else Complete
  }

  /** Reveal one more character of the current role. */
  function RevealStep(roles: seq<string>, s: State): (t: State)
    requires WellFormed(roles, s) && s.isTyping && s.cursor < |CurrentRole(roles, s)|
    ensures WellFormed(roles, t)
    ensures t.roleIndex == s.roleIndex && t.isTyping
    ensures t.cursor == s.cursor + 1
    ensures |t.displayText| == t.cursor
    ensures t.displayText <= CurrentRole(roles, s)
    ensures Invariant(roles, s) && s.cursor > 0 ==>
              t.displayText == s.displayText + [CurrentRole(roles, s)[s.cursor]]
    ensures t.displayText[s.cursor] == CurrentRole(roles, s)[s.cursor]
  {
    var role := CurrentRole(roles, s);
    State(s.roleIndex, s.cursor + 1, role[..s.cursor + 1], s.isTyping)
  }

  /** The role is fully shown: stop typing and start the pause. */
  function CompleteStep(roles: seq<string>, s: State): (t: State)
    requires WellFormed(roles, s) && s.isTyping && s.cursor == |CurrentRole(roles, s)|
    ensures WellFormed(roles, t)
    ensures !t.isTyping
    ensures t.roleIndex == s.roleIndex && t.cursor == s.cursor && t.displayText == s.displayText
  {
    s.(isTyping := false)
  }

  /** The pause is over: move cyclically to the next role and start typing it.
      The text on display is left alone; the next reveal overwrites it. */
  function AdvanceStep(roles: seq<string>, s: State): (t: State)
    requires WellFormed(roles, s) && !s.isTyping
    ensures WellFormed(roles, t)
    ensures t.cursor == 0 && t.isTyping
    ensures t.displayText == s.displayText
    ensures s.roleIndex + 1 < |roles| ==> t.roleIndex == s.roleIndex + 1
    ensures s.roleIndex + 1 == |roles| ==> t.roleIndex == 0
  {
    State((s.roleIndex + 1) % |roles|, 0, s.displayText, true)
  }

  /** One timer firing. */
  function Step(roles: seq<string>, s: State): (t: State)
    requires WellFormed(roles, s)
    ensures WellFormed(roles, t)
    ensures Invariant(roles, s) ==> Invariant(roles, t)
    ensures t.roleIndex != s.roleIndex ==> !s.isTyping
    ensures s.isTyping ==> t.roleIndex == s.roleIndex
    ensures !s.isTyping ==> t.cursor == 0 && t.isTyping && t.displayText == s.displayText
  {
    match Next(roles, s)
    case Reveal => RevealStep(roles, s)
    case Complete => CompleteStep(roles, s)
    case Advance =>
      assert CurrentRole(roles, s)[..|CurrentRole(roles, s)|] == CurrentRole(roles, s);
      AdvanceStep(roles, s)
  }

  /** The state after `n` timer firings. */
  function Iterate(roles: seq<string>, s: State, n: nat): (t: State)
    requires WellFormed(roles, s)
    ensures WellFormed(roles, t)
    ensures Invariant(roles, s) ==> Invariant(roles, t)
    decreases n
  {
    if n == 0 then s else Iterate(roles, Step(roles, s), n - 1)
  }

  /** Milliseconds between the previous transition and the next one. The
      effect calls the typing closure directly when a role starts (cursor 0),
      so that first call is immediate; a reveal re-arms the typing timer; a
      completion arms the hold timer. */
  function Delay(roles: seq<string>, s: State): (d: nat)
    requires WellFormed(roles, s)
    ensures !s.isTyping ==> d == HoldDelay
    ensures s.isTyping && s.cursor == 0 ==> d == 0
    ensures s.isTyping && s.cursor > 0 ==> d == TypingDelay
  {
    match Next(roles, s)
    case Advance => HoldDelay
    case _ => if s.cursor == 0 then 0 else TypingDelay
  }

  /** Milliseconds spent over `n` timer firings. */
  function Elapsed(roles: seq<string>, s: State, n: nat): nat
    requires WellFormed(roles, s)
    decreases n
  {
    if n == 0 then 0 else Delay(roles, s) + Elapsed(roles, Step(roles, s), n - 1)
  }

  /** Steps in one full cycle of role `i`: its reveals, the completion and the advance. */
  function CycleLength(roles: seq<string>, i: nat): nat
    requires i < |roles|
  {
    |roles[i]| + 2
  }

  /** Steps in `m` consecutive cycles starting at role `i`. */
  function CyclesLength(roles: seq<string>, i: nat, m: nat): nat
    requires i < |roles|
    decreases m
  {
    if m == 0 then 0 else CycleLength(roles, i) + CyclesLength(roles, (i + 1) % |roles|, m - 1)
  }

  /** The state at which the typing of a role begins. */
  predicate RoleStart(roles: seq<string>, s: State) {
    Invariant(roles, s) && s.isTyping && s.cursor == 0
  }

  // ---------------------------------------------------------------------------
  // Lemmas over iterated steps
  // ---------------------------------------------------------------------------

  lemma {:induction false} IterateSucc(roles: seq<string>, s: State, n: nat)
    requires WellFormed(roles, s)
    ensures Iterate(roles, s, n + 1) == Step(roles, Iterate(roles, s, n))
    decreases n
  {
    if n > 0 {
      IterateSucc(roles, Step(roles, s), n - 1);
    }
  }

  lemma {:induction false} IterateAdd(roles: seq<string>, s: State, a: nat, b: nat)
    requires WellFormed(roles, s)
    ensures Iterate(roles, s, a + b) == Iterate(roles, Iterate(roles, s, a), b)
    decreases a
  {
    if a > 0 {
      IterateAdd(roles, Step(roles, s), a - 1, b);
    }
  }

  lemma {:induction false} ElapsedAdd(roles: seq<string>, s: State, a: nat, b: nat)
    requires WellFormed(roles, s)
    ensures Elapsed(roles, s, a + b) == Elapsed(roles, s, a) + Elapsed(roles, Iterate(roles, s, a), b)
    decreases a
  {
    if a > 0 {
      ElapsedAdd(roles, Step(roles, s), a - 1, b);
    }
  }

  /** While typing, `k` steps from cursor `c` are `k` reveals: the cursor moves
      by `k`, the role and the mode stay, and the text is the revealed prefix. */
  lemma {:induction false} TypeAhead(roles: seq<string>, s: State, k: nat)
    requires Invariant(roles, s) && s.isTyping
    requires s.cursor + k <= |CurrentRole(roles, s)|
    ensures Iterate(roles, s, k).roleIndex == s.roleIndex
    ensures Iterate(roles, s, k).isTyping
    ensures Iterate(roles, s, k).cursor == s.cursor + k
    ensures s.cursor + k > 0 ==>
              Iterate(roles, s, k).displayText == CurrentRole(roles, s)[..s.cursor + k]
    ensures k == 0 ==> Iterate(roles, s, k).displayText == s.displayText
    ensures Elapsed(roles, s, k) == if s.cursor == 0 && k > 0 then TypingDelay * (k - 1) else TypingDelay * k
    decreases k
  {
    if k > 0 {
      var t := Step(roles, s);
      assert t == RevealStep(roles, s);
      TypeAhead(roles, t, k - 1);
    }
  }

  /** Typing a role from its start: after exactly `|role|` reveals the whole role
      is shown (an empty role shows no new text), and the next step is the
      completion. */
  lemma RoleFullyTyped(roles: seq<string>, s: State)
    requires RoleStart(roles, s)
    ensures var t := Iterate(roles, s, |CurrentRole(roles, s)|);
            && t.roleIndex == s.roleIndex
            && t.cursor == |CurrentRole(roles, s)|
            && t.displayText == (if |CurrentRole(roles, s)| > 0 then CurrentRole(roles, s) else s.displayText)
            && Next(roles, t) == Complete
  {
    var role := CurrentRole(roles, s);
    TypeAhead(roles, s, |role|);
    assert role[..|role|] == role;
  }

  /** One full cycle of the current role ends at the start of the next role in
      cyclic order, still showing the role just typed, after `50 * |role| + 2000`
      milliseconds. */
  lemma OneCycle(roles: seq<string>, s: State)
    requires RoleStart(roles, s)
    ensures var t := Iterate(roles, s, CycleLength(roles, s.roleIndex));
            && RoleStart(roles, t)
            && t.roleIndex == (s.roleIndex + 1) % |roles|
            && t.displayText == (if |CurrentRole(roles, s)| > 0 then CurrentRole(roles, s) else s.displayText)
    ensures Elapsed(roles, s, CycleLength(roles, s.roleIndex))
            == TypingDelay * |CurrentRole(roles, s)| + HoldDelay
  {
    var n := |CurrentRole(roles, s)|;
    RoleFullyTyped(roles, s);
    TypeAhead(roles, s, n);
    var typed := Iterate(roles, s, n);
    var paused := Step(roles, typed);
    var next := Step(roles, paused);
    IterateAdd(roles, s, n, 2);
    assert Iterate(roles, typed, 2) == next by {
      assert Iterate(roles, typed, 1) == paused;
    }
    ElapsedAdd(roles, s, n, 2);
    assert Elapsed(roles, typed, 2) == Delay(roles, typed) + HoldDelay;
  }

  /** Cyclic order: after `m` full cycles from the start of role `i`, the
      sequencer is at the start of role `(i + m) % |roles|`. */
  lemma {:induction false} Cycles(roles: seq<string>, s: State, m: nat)
    requires RoleStart(roles, s)
    ensures var t := Iterate(roles, s, CyclesLength(roles, s.roleIndex, m));
            RoleStart(roles, t) && t.roleIndex == (s.roleIndex + m) % |roles|
    decreases m
  {
    if m > 0 {
      var c := CycleLength(roles, s.roleIndex);
      OneCycle(roles, s);
      var t := Iterate(roles, s, c);
      Cycles(roles, t, m - 1);
      IterateAdd(roles, s, c, CyclesLength(roles, t.roleIndex, m - 1));
      ModSucc(s.roleIndex, m, |roles|);
    }
  }

  /** Moving to the successor index and then `m - 1` further is moving `m`. */
  lemma ModSucc(i: nat, m: nat, n: nat)
    requires i < n && m > 0
    ensures ((i + 1) % n + (m - 1)) % n == (i + m) % n
  {
    if i + 1 == n {
      ModArith.ModUnique(i + 1, n, 1, 0);
      ModArith.ModWrap(m - 1, n);
      assert i + m == m - 1 + n;
    } else {
      ModArith.ModUnique(i + 1, n, 0, i + 1);
    }
  }

  /** After one cycle per role the sequencer is back at the role it started from. */
  lemma FullRotation(roles: seq<string>, s: State)
    requires RoleStart(roles, s)
    ensures var t := Iterate(roles, s, CyclesLength(roles, s.roleIndex, |roles|));
            RoleStart(roles, t) && t.roleIndex == s.roleIndex
  {
    Cycles(roles, s, |roles|);
    ModArith.ModWrap(s.roleIndex, |roles|);
    ModArith.ModUnique(s.roleIndex, |roles|, 0, s.roleIndex);
  }

  /** A single firing keeps the role index, except an advance, which moves it
      to its cyclic successor. */
  lemma RoleIndexMoves(roles: seq<string>, s: State)
    requires WellFormed(roles, s)
    ensures var t := Step(roles, s);
            (t.roleIndex == s.roleIndex && Next(roles, s) != Advance)
            || (t.roleIndex == (s.roleIndex + 1) % |roles| && Next(roles, s) == Advance)
  {
  }

  /** While typing, the text on display only ever grows: a step from a state
      with a revealed character keeps that text as a prefix. */
  lemma TypingOnlyExtends(roles: seq<string>, s: State)
    requires Invariant(roles, s) && s.isTyping && s.cursor > 0
    ensures s.displayText <= Step(roles, s).displayText
    ensures Step(roles, s).displayText <= CurrentRole(roles, s)
  {
  }

  // ---------------------------------------------------------------------------
  // The typing loop, as the chain of typing-timer firings performs it
  // ---------------------------------------------------------------------------

  /** Run the typing closure on the current role until it completes, recording
      every text handed to the display. */
  method TypeRole(roles: seq<string>, s: State) returns (t: State, shown: seq<string>)
    requires RoleStart(roles, s)
    ensures t == Iterate(roles, s, |CurrentRole(roles, s)|)
    ensures Next(roles, t) == Complete
    ensures |shown| == |CurrentRole(roles, s)|
    ensures forall i :: 0 <= i < |shown| ==> shown[i] == CurrentRole(roles, s)[..i + 1]
  {
    var role := CurrentRole(roles, s);
    t := s;
    shown := [];
    var steps := 0;
    while Next(roles, t) == Reveal
      invariant Invariant(roles, t) && t.isTyping
      invariant t.roleIndex == s.roleIndex
      invariant steps == t.cursor <= |role|
      invariant t == Iterate(roles, s, steps)
      invariant |shown| == steps
      invariant forall i :: 0 <= i < |shown| ==> shown[i] == role[..i + 1]
      decreases |role| - t.cursor
    {
      IterateSucc(roles, s, steps);
      t := Step(roles, t);
      shown := shown + [t.displayText];
      steps := steps + 1;
    }
  }
}
