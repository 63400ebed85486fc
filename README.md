# bite-line interactions, modelled in Dafny

`script.js` drives three pieces of behaviour on the bite-line marketing page,
and this project models those three:

- **Custom cursor.** A `mousemove` handler records the latest pointer position.
  On every animation frame the cursor moves a fifth of the remaining distance
  toward that position and its follower a tenth. Both are then drawn at a fixed
  offset.
- **Scroll reveal.** One IntersectionObserver watches every `.reveal` element.
  The first entry that finds an element intersecting adds the `active` class and
  stops observing it.
- **Statistics count-up.** Each `.stat-number` element has an observer of its
  own. When it first intersects, its text is classified:
  - text with a trend arrow `→` is left as it is and stays observed;
  - text with no leading integer (`parseInt` gives NaN) is left as it is and is
    no longer observed;
  - any other text starts an interval timer. Each tick adds a sixtieth of the
    number to `current` and writes `floor(current)`, followed by `%` if the text
    had one. When `current` reaches the number it snaps to the number and the
    timer is cleared.

Modules:

- `RealArith` (`real_arith.dfy`): a multiplication wrapper `Mul` and its algebra.
  The easing proofs state their products through it.
- `JsNumber` (`js_number.dfy`): `parseInt` with the radix omitted, as section
  19.2.5 of ECMA-262 defines it, and the decimal text of an integral Number.
- `Pointer` (`pointer.dfy`): the easing step as a function with lemmas about it;
  the cursor state and its two events as values; and the class `CursorLoop`,
  whose two callbacks update the six closure variables in place.
- `Reveal` (`reveal.dfy`): the class `RevealObserver`, which holds the
  observed set and the active set. Its callback takes a batch of entries.
- `CountUp` (`count_up.dfy`) holds four things:
  - text classification and rendering;
  - the schedule of values a run writes, as a function with lemmas about it;
  - the class `StatCounter`: one element with its observer and timer, whose
    methods are the observer callback, one timer tick and the whole timer run;
  - `RunInvariant`, the invariant each tick keeps.

Arithmetic is exact: positions are `real` and integers are unbounded. So a
count-up to a positive number takes exactly sixty ticks, and to any other number
exactly one.

What the code does, and does not do, in these three pieces:

- The count-up is paced by ticks, adding a fixed increment each time. It does
  not follow an eased curve over wall-clock time.
- The cursor is drawn at the fixed offsets 20 and 4: the offsets are constants,
  not computed from the element's size.
- Nothing checks for a coarse pointer: the cursor loop always starts.
- Nothing guards the hover scale, and nothing coalesces the parallax handler.
  Both of these are left out below.

## Model

| member | source | states |
|---|---|---|
| JsNumber.ParseInt | script.js:91 | `parseInt` with the radix omitted; its properties are stated by ParseIntSkipsWhiteSpace, ParseIntOfDigits, ParseIntOfHex, ParseIntNaN and ParseIntOfDecimal |
| JsNumber.IntToDecimal | script.js:105 | the decimal text of an integral value, a minus sign before the digits of a negative one; ParseIntOfDecimal states that `parseInt` reads it back, and NatToDecimal states the digits |
| JsNumber.TrimStart | script.js:91 | the result is a suffix of the text; everything dropped is white space; what is left is empty or starts with a non-white-space character |
| JsNumber.DigitRun | script.js:91 | the digit run `parseInt` reads is a prefix made of digits of the radix, and the character after it (if any) is not such a digit |
| JsNumber.NatToDecimal | script.js:105 | the decimal text of a natural number is non-empty and made of digits; it denotes that number; it has no leading zero |
| JsNumber.ParseIntSkipsWhiteSpace | script.js:91 | leading white space never changes what `parseInt` returns |
| JsNumber.ParseIntOfDigits | script.js:91 | an optional sign and decimal digits, followed by text that is empty or starts with a non-digit, parse to the signed value of the digits, so trailing text is ignored; a lone `0` must not be followed by `x`/`X`, since that starts a hex prefix (`parseInt("0xyz")` is NaN) |
| JsNumber.ParseIntOfHex | script.js:91 | a `0x`/`0X` prefix makes the digits that follow parse in radix 16 |
| JsNumber.ParseIntNaN | script.js:91-93 | text that after white space is empty, or starts with neither a sign nor a digit, parses to NaN |
| JsNumber.ParseIntOfDecimal | script.js:105 | `parseInt` reads back the decimal text of every integer, whatever non-digit suffix follows it; only a zero followed by `x`/`X` is excluded, since that starts a hex prefix (writing and parsing are inverse) |
| Pointer.Ease | script.js:27-32 | one easing step toward the pointer; EaseStep, EaseStepStrict, EaseNDistance, EaseConverges and CursorLeadsFollower state its properties |
| Pointer.Step | script.js:19-32 | a `mousemove` records the position and a frame eases both elements; ReplayLastMove, ReplayWithoutMoves, ReplayWithoutFrames and ReplayFrames state what a sequence of events does |
| Pointer.EaseStep | script.js:27-32 | one step with a factor in [0, 1] leaves exactly (1 - k) of the distance, lands between the old position and the target, and keeps a position already at the target there |
| Pointer.EaseStepStrict | script.js:27-32 | with 0 < k < 1, a step from any point other than the target moves strictly toward it and never reaches or overshoots it |
| Pointer.EaseNDistance | script.js:25-37 | after n frames toward a held target, the remaining distance is (1 - k)^n times the first distance |
| Pointer.EaseConverges | script.js:25-37 | for 0 < k <= 1, once n * k * eps reaches the first distance, n frames bring the position within eps of the target |
| Pointer.CursorLeadsFollower | script.js:27-32 | from the same start and toward the same held target, the cursor (0.2) is never farther from the target than the follower (0.1) |
| Pointer.ReplayLastMove | script.js:19-22 | the recorded pointer position is the one of the last `mousemove`, whatever frames came after it |
| Pointer.ReplayWithoutMoves | script.js:25-37 | frames never change the recorded pointer position |
| Pointer.ReplayWithoutFrames | script.js:19-22 | `mousemove` events never move the cursor or the follower |
| Pointer.ReplayFrames | script.js:25-37 | frames alone ease the cursor at 0.2 and the follower at 0.1, each axis on its own, toward the held pointer |
| Pointer.CursorLoop.constructor | script.js:14-16 | all six variables start at zero |
| Pointer.CursorLoop.OnMouseMove | script.js:19-22 | the handler records the client coordinates and changes nothing else |
| Pointer.CursorLoop.AnimateCursor | script.js:25-35 | one frame is one easing step of both elements, with the pointer unchanged; the translations drawn are the positions minus 20 and minus 4 |
| Reveal.EnteredMeansIntersecting | script.js:61-67 | a target enters exactly when some entry of the batch finds it intersecting |
| Reveal.EnteredWithinTargets | script.js:61-67 | only targets of the batch can enter |
| Reveal.NothingIntersecting | script.js:63 | a batch without an intersecting entry reveals nothing |
| Reveal.RevealObserver.constructor | script.js:70 | every reveal element is observed and none is active |
| Reveal.RevealObserver.OnEntries | script.js:61-68 | the targets of the intersecting entries become active and stop being observed, the rest stay as they were; every element is still either observed or active, never both |
| Reveal.CallbackMovesEntered | script.js:61-67 | an entering target was not active before, so each element is revealed at most once; it moves from observed to active, and the two sets stay disjoint with the same union |
| CountUp.Classify | script.js:83-93 | arrow text first, then NaN, then the parsed number with the `%` flag; RenderClassifies, TrailingTextIsDropped and PercentIsKept state its properties |
| CountUp.Render | script.js:105 | the text a tick writes; RenderClassifies states that it has `%` exactly when flagged, carries no arrow and classifies back to the value |
| CountUp.RenderClassifies | script.js:83-105 | a written value has no arrow, has `%` exactly when asked to, and classifies back to the same number and flag |
| CountUp.AccumulatedIsLinear | script.js:94-100 | after k ticks `current` is k sixtieths of the number |
| CountUp.SnapsExactlyAt | script.js:99-104 | within a run, `current >= number` first holds on the last tick (tick 60 for a positive number, tick 1 otherwise); before that, `current` lies in [0, number) |
| CountUp.AccumulatedRises | script.js:99-100 | for a positive number, `current` never decreases from tick to tick |
| CountUp.ShownIsFloorOfCurrent | script.js:99-105 | what tick k writes is the floor of `current` after the snap |
| CountUp.ScheduleEndsAtTarget | script.js:101-105 | a run writes TickCount values, and the last one is exactly the number |
| CountUp.ScheduleRises | script.js:99-105 | the written values never decrease and never exceed the number |
| CountUp.ShownRises | script.js:99-105 | a later tick writes a value at least as large as an earlier one, and at most the number |
| CountUp.ScheduleNonNegative | script.js:94-105 | for a non-negative number no written value is negative |
| CountUp.ScheduleOfNonPositive | script.js:101-105 | for a number of at most zero the first tick snaps: the run writes the number once and stops |
| CountUp.TickAdvances | script.js:100-102 | tick k adds the increment to the value after tick k - 1, snaps exactly on the last tick, and writes the schedule's k-th value |
| CountUp.ScheduleExtends | script.js:99-105 | the first k scheduled values are the first k - 1 plus the k-th |
| CountUp.TickPreservesRun | script.js:99-105 | a tick keeps the run invariant: the values written are a prefix of the schedule; the timer is set until all are written; the text is the last value written, rendered with the percent flag |
| CountUp.StatCounter.constructor | script.js:114 | the element keeps its text and is observed; no run has started |
| CountUp.StatCounter.OnEntries | script.js:78-112 | text is unchanged; no intersecting entry or arrow text changes nothing and the element stays observed; NaN text stops being observed and starts nothing; numeric text stops being observed and starts a run at 0 toward the parsed number, with `%` as the text has it |
| CountUp.StatCounter.Tick | script.js:99-106 | `current` grows by the increment and snaps to the number when it reaches it; the timer stays set exactly when it has not; the text becomes the floor of `current` followed by `%` if the text had one; the value is appended to the values written |
| CountUp.StatCounter.RunTimer | script.js:99-106 | a started run writes exactly the schedule, ends with the timer cleared, and leaves the text as the number (with `%` if the text had one) |
| CountUp.TrailingTextIsDropped | script.js:91-105 | "500+" counts up to 500 and is written back as "500" |
| CountUp.PercentIsKept | script.js:83-105 | "150%" counts up to 150 and is written back as "150%" |

## Left out

- No I/O or DOM is modelled. `querySelector` results, `style.transform` strings
  and `classList` become fields and return values. An element missing from the
  page, where the code would throw, is not modelled.
- Scheduling is not modelled. `requestAnimationFrame`, `setInterval`'s 2000 / 60
  ms period and the browser's delivery of observer entries become explicit
  calls. Instead, one `Tick` is one interval callback and one `AnimateCursor` is
  one frame.
- Intersection geometry is not modelled: the thresholds 0.2 and 0.5 and the
  -100px root margin. Each entry carries the `isIntersecting` flag the browser
  computed.
- Floating point (IEEE-754) is not modelled; arithmetic is exact. Rounding in
  `number / 60` and in the sum of sixty increments can leave `current` just
  below the number after sixty ticks, so a real run can take a sixty-first tick. Numbers of 1e21 and above would be
  written in exponent notation. Digit strings longer than a double holds would
  be rounded, and a digit run whose value is at least about 1.8e308
  (`Number.MAX_VALUE`) makes `parseInt` return `Infinity`, so the first tick
  snaps and writes "Infinity"; the model's integers never overflow.
- JsNumber.ParseInt: a negative zero ("-0") is the integer 0 here. It is written
  as "0" either way.
- CountUp.StatCounter.OnEntries requires at most one intersecting entry per batch
  when the text is numeric. The source would start a second timer on a second
  intersecting entry in the same batch, and the model does not cover two timers
  writing to one element. Arrow and NaN text accept any batch.
- The hover scale on links, buttons and images (script.js:43-51, 155-176) is not
  modelled. Neither are the button lift, smooth scrolling (script.js:120-131),
  parallax (script.js:136-151), the hero word timeouts, the page fade-in and the
  console messages. They are style writes with no state to reason about.
- Pointer.EaseConverges states its bound through `Mul`, the multiplication
  wrapper of `RealArith`, and not through a closed form such as ceil(log(eps / d)
  / log(1 - k)).
