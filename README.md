# Home page state machines

This project models the two small state machines on the landing page
(`client/src/pages/home.tsx`) and proves properties about them.

- **`SequentialTypingText`** is a typewriter. It reveals a list of texts in
  order, one character per timer firing. Its state is three React cells:
  `displayedTexts`, `currentTextIndex` and `currentCharIndex`. Module
  `SequentialTyping` (`typing.dfy`) models one firing of the step effect as
  the function `Next` and a change of the `texts` prop as a reset. The
  mounted component is the class `TypingText`. Its `Step` and `Reset`
  methods update the three cells in place, and each is proved against
  `Next` or the reset state.
- **Tab auto-rotation** drives the page's use-case tabs. While
  `isAutoPlaying` is on, an interval moves `activeTab` to the tab after it
  in the list `["sales", "support", "lead", "faq", "upsell"]`, wrapping round
  at the end. `handleTabChange` shows the chosen tab and turns autoplay off.
  Module `TabRotation` (`tabs.dfy`) models the successor computation as a
  function, over any list and over the page's list. It models the two state
  cells as the class `TabState`.

Modelling choices:

- `displayedTexts` is a `seq<Slot>`, where a slot is a `Hole`, an
  `Undefined` entry or a string `Str(s)`. JavaScript tells the first two
  apart, and so does the page. A write past the end (`newTexts[k] = …`,
  lines 45 and 47) leaves holes in between; `Put` models it. The copy
  `[...prev]` (line 43) turns every hole into a real `undefined` entry;
  `Spread` models it. `displayedTexts.map(...)` (line 63) skips holes but
  renders an `undefined` entry as an empty paragraph; `Rendered` models it.
- Lines 44-46 write `""` into the slot first when the slot is falsy. Only a
  non-empty string is truthy (`Falsy`). The model keeps that write, and
  `StepCases` proves it leaves no trace, because line 47 overwrites the same
  slot at once.
- An empty text is never written. The reveal branch needs a character left,
  and the advance branch does not touch the array. Its slot lies past the
  end until a later text is first written, and that write leaves a hole
  there. The next reveal copies the array, and the copy turns the hole into
  `undefined`. So what the page finally shows for an empty text depends on
  what follows it. With at least two characters in the later texts it shows
  an empty paragraph; otherwise it shows nothing. `Paragraphs` states the
  final display text by text. `EmptyTextThenTwo` works the case `["", "ab"]`
  (an empty paragraph, then "ab"). `EmptyTextParagraphs` contrasts it with
  `["", "a"]` and `["a", ""]`, which show only "a". Apart from empty
  paragraphs, the page shows exactly the non-empty texts, in order
  (`ParagraphsNonEmpty`). So neither "an empty text gives an empty entry"
  nor "empty texts are skipped" matches the code in general; this model
  follows the code.
- One firing of an effect is one abstract step. `Elapsed` charges `speed`
  for each reveal and nothing for an index advance. `TotalTime` proves the
  whole animation costs `speed` times the total number of characters, so
  an empty text costs no wait. The page's default `speed` is 30.
- The terminal guard (line 37) comes before `texts[currentTextIndex]` is
  read. `TypingText.Step` reads the text only under that guard, and Dafny's
  index checks prove it never reads out of range.

## Model

| member | source | states |
|---|---|---|
| SequentialTyping.Spread | client/src/pages/home.tsx:43 | `[...prev]` has the same length, turns every hole into `undefined`, and keeps every entry that was not a hole. |
| SequentialTyping.Put | client/src/pages/home.tsx:45-47 | A write at index `k` sets slot `k` and keeps every other slot. A write past the end grows the array to `k + 1` slots and leaves holes in between. |
| SequentialTyping.Falsy | client/src/pages/home.tsx:44 | `!newTexts[k]` holds exactly when slot `k` is not a non-empty string: past the end, a hole, `undefined` or `""`. |
| SequentialTyping.Next | client/src/pages/home.tsx:36-59 | Before the last text is passed, every firing moves the cursors forward: either the text index grows, or it stays and the char index grows by one. |
| SequentialTyping.StepCases | client/src/pages/home.tsx:37-57 | The three cases of one firing. Past the end, nothing changes. A reveal sets slot `currentTextIndex` to the prefix of length `currentCharIndex + 1` and bumps the char index. It turns every other hole below the old length into `undefined`, keeps every other entry, and fills new slots before the current one with holes; the interim `""` write leaves no trace. An advance bumps the text index, resets the char index to 0 and leaves the slots alone. |
| SequentialTyping.InitialConsistent | client/src/pages/home.tsx:26-34 | The mount/reset state `([], 0, 0)` satisfies the invariant `Consistent`. |
| SequentialTyping.StepConsistent | client/src/pages/home.tsx:36-59 | One firing preserves `Consistent`. The cursors stay in range and every passed non-empty text is shown in full. A passed empty text's slot is absent, a hole or `undefined` after 0, 1 or at least 2 later reveals. The current slot holds the prefix typed so far, and no slot lies past the current text. |
| SequentialTyping.RunConsistent | client/src/pages/home.tsx:36-59 | Every state reached by any number of firings from a consistent state is consistent. |
| SequentialTyping.ConsistentSlots | client/src/pages/home.tsx:37-57 | In a consistent state there is no slot past the current text. Every string slot holds a non-empty prefix of its own text, and every hole or `undefined` slot belongs to a passed empty text. |
| SequentialTyping.ConsistentUnique | client/src/pages/home.tsx:26-28 | A reachable state is determined by its two cursors: two consistent states with equal cursors have equal `displayedTexts`. |
| SequentialTyping.StepExtendsSlot | client/src/pages/home.tsx:43-47 | A string slot stays a string slot, and after a firing it holds an extension of what it held before (its length never decreases). |
| SequentialTyping.RunExtendsSlot | client/src/pages/home.tsx:43-47 | The same, over any number of firings. |
| SequentialTyping.StepWritesCurrentOnly | client/src/pages/home.tsx:47-56 | A firing writes a string only into the slot of the current text, and only during a reveal. When it writes slot `k`, every non-empty text before `k` is already shown in full, so text `i + 1` never starts before text `i` is complete. |
| SequentialTyping.StepRemaining | client/src/pages/home.tsx:37-57 | Each non-terminal firing uses up exactly one of the remaining firings. Only a reveal uses up a character. |
| SequentialTyping.RunTerminal | client/src/pages/home.tsx:37 | From any state, the machine is terminal after `k` firings if and only if `k` is at least `Remaining`. |
| SequentialTyping.ElapsedRemaining | client/src/pages/home.tsx:40-57 | Running to the end waits `speed` once per character left, and never for an index advance. |
| SequentialTyping.InitialRemaining | client/src/pages/home.tsx:30-34 | From a reset, there are `sum(len(texts[i])) + texts.length` firings to go, and all but `texts.length` of them reveal a character. |
| SequentialTyping.Rendered | client/src/pages/home.tsx:63-67 | The page shows at most one paragraph per slot, and exactly one per slot when there is no hole. |
| SequentialTyping.RenderedNoHoles | client/src/pages/home.tsx:63-67 | Over slots without holes the page shows one paragraph per slot, in order: a string slot shows its string and an `undefined` slot an empty paragraph. |
| SequentialTyping.FinishedRendered | client/src/pages/home.tsx:63-67 | Slots settled as at the end of the animation render as `Paragraphs(texts)`: each non-empty text in full, and for each empty text an empty paragraph exactly when at least two characters follow it. |
| SequentialTyping.ParagraphsNonEmpty | client/src/pages/home.tsx:63-67 | Leaving out empty paragraphs, the page shows exactly the non-empty texts, each in full and in order. |
| SequentialTyping.EmptyTextParagraphs | client/src/pages/home.tsx:43-67 | `["", "ab"]` ends as an empty paragraph and "ab"; `["", "a"]` and `["a", ""]` end as "a" alone. |
| SequentialTyping.EmptyTextThenTwo | client/src/pages/home.tsx:30-67 | Four firings from a reset with texts `["", "ab"]` render an empty paragraph followed by "ab". |
| SequentialTyping.TerminalAfterExactly | client/src/pages/home.tsx:30-59 | From a reset, the machine is terminal after exactly `sum(len(texts[i])) + texts.length` firings, and not before. |
| SequentialTyping.TerminalDone | client/src/pages/home.tsx:37-67 | A consistent state past the last text is `Done`. Every non-empty text is shown in full, and every empty text's slot is settled by the number of characters after it. The page shows `Paragraphs(texts)`. |
| SequentialTyping.RunToEnd | client/src/pages/home.tsx:36-59 | From any consistent state, running at least the remaining firings ends in `Done`. |
| SequentialTyping.FinalDisplay | client/src/pages/home.tsx:30-59 | From a reset, once `sum(len(texts[i])) + texts.length` firings have happened the machine is in `Done`, and it stays there. |
| SequentialTyping.TotalTime | client/src/pages/home.tsx:40-51 | The whole animation from a reset waits `speed * sum(len(texts[i]))`. |
| SequentialTyping.RunStep | client/src/pages/home.tsx:36-59 | `k + 1` firings are `k` firings followed by one more. |
| SequentialTyping.TypingText.constructor | client/src/pages/home.tsx:26-28 | Mounting starts from the empty state `([], 0, 0)`, which is consistent. |
| SequentialTyping.TypingText.Reset | client/src/pages/home.tsx:30-34 | A new `texts` prop resets the three cells to `([], 0, 0)` whatever they held, and the result is consistent. |
| SequentialTyping.TypingText.Step | client/src/pages/home.tsx:36-59 | The imperative step (guard, spread copy of the array, falsy pre-write, prefix write, cursor updates) ends in exactly `Next` of the old state and keeps the invariant. |
| SequentialTyping.TypingText.Play | client/src/pages/home.tsx:36-59 | Firing the effect until the guard stops it takes exactly `Remaining` firings and ends terminal. From a valid state it ends valid and `Done`. |
| TabRotation.IndexOf | client/src/pages/home.tsx:94 | `indexOf` returns -1 exactly when the tab is absent; otherwise it returns a position that holds the tab. |
| TabRotation.IndexOfFirst | client/src/pages/home.tsx:94 | No position before the one `indexOf` returns holds the tab. |
| TabRotation.Successor | client/src/pages/home.tsx:93-96 | A tab not in the list moves to the first tab. |
| TabRotation.SuccessorInList | client/src/pages/home.tsx:93-96 | The next tab is always in the list, even when the current one is not. |
| TabRotation.SuccessorIsModular | client/src/pages/home.tsx:94-96 | The successor is `tabs[(indexOf(current) + 1) % tabs.length]`. JavaScript's `%` agrees here because the left operand is never negative. |
| TabRotation.SuccessorAt | client/src/pages/home.tsx:93-96 | In a list without repeats, the tab at position `i` moves to position `i + 1`, or to 0 after the last. |
| TabRotation.Rotate | client/src/pages/home.tsx:92-97 | Zero interval ticks leave the tab as it was; after one or more ticks the tab is always one of the list's. |
| TabRotation.RotateCycle | client/src/pages/home.tsx:91-96 | In a five-tab list without repeats, five ticks bring every tab back to itself. |
| TabRotation.RotateUnknown | client/src/pages/home.tsx:94-96 | A tab outside such a list moves to the first tab, then goes round the list in order. |
| TabRotation.TabsDistinct | client/src/pages/home.tsx:91 | The page's list has five tabs and no repeats. |
| TabRotation.PageRotation | client/src/pages/home.tsx:91-96 | On the page's list: the next tab is one of the five, five ticks return to the start, and an unknown tab moves to "sales". |
| TabRotation.AutoplayOrder | client/src/pages/home.tsx:91-96 | Autoplay from the initial "sales" shows `Tabs[k % 5]` after `k` ticks. |
| TabRotation.TabState.constructor | client/src/pages/home.tsx:73-74 | The page starts on "sales" with autoplay on. |
| TabRotation.TabState.Tick | client/src/pages/home.tsx:89-97 | One interval firing moves the tab to its successor while autoplay is on, and changes nothing when it is off. |
| TabRotation.TabState.HandleTabChange | client/src/pages/home.tsx:103-106 | A manual choice shows the chosen tab and turns autoplay off. |
| TabRotation.TabState.Ticks | client/src/pages/home.tsx:89-98 | `n` interval firings rotate the tab `n` times while autoplay is on, and leave it alone when it is off. |
| TabRotation.ManualChoiceSticks | client/src/pages/home.tsx:103-106 | After any number `m` of autoplay ticks, a tab chosen by hand is still shown after any number `n` of further ticks. |

## Left out

- Real time: `setTimeout`/`clearTimeout` (lines 41, 53), `setInterval`/`clearInterval` (lines 92, 100), the 7000 ms rotation period, and the meaning of `speed`. Each timer firing is one abstract step. `Elapsed` counts `speed` per reveal instead of measuring time.
- Cancelling pending timers and the order of React effects and batched updates when `texts` changes. In one render, the step effect may fire once against stale indices before the reset lands (lines 30-37). `Reset` is atomic here because this ordering is React scheduling, not the component's logic.
- The hash-scroll effect (lines 76-86). It is DOM input and output through `window.location` and `document.getElementById`.
- JSX rendering, `Helmet`, navigation, footer, UI components, animations and the static copy of the page. `Rendered` stands in for the paragraph list at lines 63-67: which paragraphs appear and their text, not their markup.
- UTF-16 code units. JavaScript's `length` and `substring` count UTF-16 units; strings here are sequences of `char`.
- TabRotation.Successor: its own contract covers only the unknown-tab case. The known-tab cases are stated by `SuccessorAt`, `SuccessorIsModular` and `SuccessorInList`, because a quantified contract on the function makes every proof about it slower.
