# Typewriter sequencer of the portfolio hero banner

The hero banner of the portfolio site types out a fixed list of role strings
one character at a time. When a role is complete the banner pauses, then is
meant to move on to the next role and wrap around at the end of the list (see
"## Left out" for why, as written, it stops after the first role). In the
site's code this is a React effect. Its state lives in three `useState` hooks
(`roleIndex`, `displayText`, `isTyping`) and in one closure-local counter
(`currentIndex`). A chain of `setTimeout` callbacks drives it.

This project models that effect as an immutable state machine:

- `Typewriter.State(roleIndex, cursor, displayText, isTyping)` is the flattened state. `cursor` is the closure's `currentIndex`.
- `Typewriter.Step` performs one timer firing, or the effect's direct call of the typing closure. It takes one of three transitions:
  - reveal (`RevealStep`)
  - complete (`CompleteStep`)
  - advance (`AdvanceStep`)
- `Typewriter.Next` chooses which transition fires.
- `Typewriter.Iterate` runs `n` firings.
- `Typewriter.Delay` and `Typewriter.Elapsed` keep the timer delays (0, 50 and 2000 ms) only as labels on steps.
- The role list can be any `seq<string>`. `HeroRoles.Roles` instantiates it with the banner's three roles.

Files:
- `typewriter.dfy`: the state machine and its lemmas.
- `mod_arith.dfy`: remainder facts used for the cyclic role index.
- `hero_roles.dfy`: the banner's own roles, plus a two-role walk-through.

In three places the code behaves differently from what a typewriter effect usually does; the model follows the code:
- **Advance does not clear the text.** The advance callback does not touch the displayed text. The completed role stays on screen until the first reveal of the next role overwrites it. So the text is a prefix of the current role only once a character of that role has been revealed. Before that, it is empty (at mount) or the whole of a role shown earlier. `Typewriter.Invariant` states exactly this.
- **An empty role is typed with zero reveals.** It leaves the previous text on display.
- **An empty role list fails at mount.** The code would fail reading the first role's length. `Start` returns `Err(NoRoles)` for it.

## Model

| member | source | states |
|---|---|---|
| Typewriter.Start | client/src/components/Hero.tsx:29-35 | mounting succeeds exactly when there is a role; the state it gives is role 0, cursor 0, empty text, typing, and it satisfies the reachability invariant |
| Typewriter.Next | client/src/components/Hero.tsx:39-56 | a reveal fires only while typing and short of the role's end, a completion only while typing at the role's end, and the advance exactly when not typing (no reveal while paused) |
| Typewriter.RevealStep | client/src/components/Hero.tsx:39-43 | the cursor moves up by exactly one, the role and the typing mode stay, the text becomes the role's prefix of the new cursor's length, and a text that already shows a revealed prefix is extended by exactly the next character of the role |
| Typewriter.CompleteStep | client/src/components/Hero.tsx:44-45 | typing stops; role index, cursor and displayed text are all unchanged |
| Typewriter.AdvanceStep | client/src/components/Hero.tsx:46-50 | the role index moves to its successor and wraps to 0 after the last role, staying in range; the cursor resets to 0, typing resumes, and the displayed text is not changed |
| Typewriter.Step | client/src/components/Hero.tsx:38-56 | each firing preserves the reachability invariant (cursor within the role, paused only at the role's end, text a revealed prefix or a whole earlier role); the role index changes only when leaving a pause |
| Typewriter.Iterate | client/src/components/Hero.tsx:29-59 | the invariant holds after any number of firings, so it holds in every state reachable from mount |
| Typewriter.Delay | client/src/components/Hero.tsx:43-55 | the wait before a firing is 2000 ms while paused, 0 ms for the effect's direct call at a role's start, and 50 ms between typing ticks |
| Typewriter.IterateSucc | client/src/components/Hero.tsx:43 | running `n + 1` firings is one more firing after `n` |
| Typewriter.IterateAdd | client/src/components/Hero.tsx:43-50 | firing sequences compose: `a + b` firings are `b` firings after `a` |
| Typewriter.ElapsedAdd | client/src/components/Hero.tsx:43-50 | elapsed time is additive over composed firing sequences |
| Typewriter.TypeAhead | client/src/components/Hero.tsx:39-43 | `k` firings while typing and within the role are `k` reveals: the cursor advances by `k`, the role and mode stay, the text is the revealed prefix, and they take 50 ms each except an immediate first one |
| Typewriter.RoleFullyTyped | client/src/components/Hero.tsx:39-45 | from a role's start, exactly its length in reveals shows the whole role (an empty role leaves the previous text), and the next firing is the completion |
| Typewriter.OneCycle | client/src/components/Hero.tsx:39-50 | one full cycle (reveals, completion, advance) ends at the start of the next role in cyclic order, still showing the role just typed, after 50 ms per character plus 2000 ms |
| Typewriter.Cycles | client/src/components/Hero.tsx:49 | after `m` full cycles from the start of role `i`, the sequencer is at the start of role `(i + m)` modulo the number of roles |
| Typewriter.FullRotation | client/src/components/Hero.tsx:6-49 | after one cycle per role the sequencer is back at the start of the role it began with |
| Typewriter.RoleIndexMoves | client/src/components/Hero.tsx:46-50 | a firing either keeps the role index (any transition but advance) or moves it to the cyclic successor (advance); no other change is possible |
| Typewriter.TypingOnlyExtends | client/src/components/Hero.tsx:39-45 | while typing after a first reveal, the displayed text only grows and remains a prefix of the current role |
| Typewriter.TypeRole | client/src/components/Hero.tsx:38-45 | the chain of typing-timer firings from a role's start hands the display the role's prefixes of length 1, 2, …, up to the whole role, in that order, and stops where the completion is due |
| HeroRoles.RolesStart | client/src/components/Hero.tsx:6 | the banner's three-role list mounts successfully into a role start |
| HeroRoles.FirstRoleShown | client/src/components/Hero.tsx:6-45 | twenty firings after mount, "Frontend Development" is shown in full and the completion is next |
| HeroRoles.CycleOf | client/src/components/Hero.tsx:6-50 | a cycle of any of the banner's roles ends at the next role's start, showing that role, after 50 ms per character plus 2000 ms |
| HeroRoles.BackToFirstRole | client/src/components/Hero.tsx:6-50 | 54 firings (8400 ms) after mount the banner is typing role 0 again, with "Problem Solver" still displayed |
| HeroRoles.TwoRoleTexts | client/src/components/Hero.tsx:39-50 | for the roles "AB" and "C", the text shows "A", "AB", stays "AB" through the pause and advance, then "C", and after wrapping, "A" |

## Left out

- Real timers: the `setTimeout` calls and the `clearTimeout` cleanup (Hero.tsx lines 43, 46 and 58). Each timer firing is one discrete `Step`. Delays survive only as the `Delay` label.
- React's effect lifecycle (lines 33 and 58-59), and with it the halt it causes. `setIsTyping(false)` on line 45 only schedules a re-render; the effect's cleanup on line 58 runs after that render, by which time line 46 has stored the 2000 ms advance timer in `timeoutId`, so the cleanup always cancels it. The re-run effect then sees `isTyping` false, skips the typing call (lines 54-55) and arms no timer. As written, the banner therefore stops on "Frontend Development" and never advances (read from the code; nothing was executed). The model is of the transitions lines 44-50 are written to perform: its advance step is the one the cancelled timer would have taken.
- Stopping the sequencer on unmount is not modelled, because it is React lifecycle behaviour.
- Strings are sequences of `char`. JavaScript's UTF-16 code-unit indexing in `substring` and `length` is not modelled separately; the banner's roles are plain ASCII, where the two agree.
- The framer-motion animation variants and background shapes (lines 15-26 and 64-91) are left out. They are decorative configuration for an external library, and they use floating point.
- The scroll-to-section button handlers (lines 142-145 and 153-156) are left out. They are foreign DOM calls.
- The social-link data and the JSX markup (lines 8-13 and 61-186) are left out. They are static presentation with no behaviour.
