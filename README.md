# Display-mode selection and render loop of the Nifty "Hello World" sample

This project models the only logic of its own in the sample application
`com.niftytest.App`. The rest of the program wires the Nifty GUI toolkit to
LWJGL. Two parts are modelled:

- **Display-mode selection and window placement** (`initLWJGL`). The
  application enumerates the platform's display modes. It keeps those that
  are 1024x768 at 32 bits per pixel, in enumeration order. It selects the
  first of those whose refresh rate equals the desktop's. Failing that, it
  stably sorts them by ascending refresh rate and selects the first. It then
  centres the window on the desktop, using Java's truncating `int` division.
  If no mode matches, nothing is selected.
- **Render-loop termination** (`renderLoop`). The loop runs until a close is
  requested before an iteration, or until the GUI's `update` asks to exit.
  In the exit case the GUI is still rendered in that last iteration.

The modules follow the program's structure:

- `Modes` (modes.dfy): the `DisplayMode` record, the 1024x768x32 candidate
  filter, the exact refresh-rate scan and the frequency comparator.
- `FrequencySort` (frequency_sort.dfy): the stable ascending sort by refresh
  rate as insertion sort on sequences. It is proved to be a permutation, to
  be sorted and to be stable. Its head is proved to be the first mode of
  lowest refresh rate.
- `Selection` (selection.dfy): the selection rule `Select` as a function.
  Also Java's truncating division `JDiv` and the centred `WindowLocation`.
- `Bootstrap` (bootstrap.dfy): `initLWJGL` as the source runs it. A loop
  appends the candidates to a list. The candidate array is scanned with a
  `found` flag and a `break`. The array is sorted in place. Each method is
  proved against the functions above.
- `RenderLoop` (render_loop.dfy): the `while` loop with its `done` flag,
  over a trace of observations. It is proved against the function `Run`.
- `Wrappers` (wrappers.dfy): `Option`.

Notes on the model:

- `Display.getDisplayMode()` at `App.java:98-99` returns the mode just
  passed to `setDisplayMode`. If nothing was passed, LWJGL still reports
  the desktop mode it started with, so the window is placed at (0, 0)
  (`ActiveMode`, `NoCandidates`). The empty case needs no special code:
  the scan and the loop after the sort both run zero times, and nothing is
  selected. The model returns `None`; it is not an error.
- `Arrays.sort` with a comparator is stable. The model sorts the candidate
  array in place with a stable insertion sort (`SortByFrequency`), proved
  equal to `StableSort`. Candidates all share width, height and depth. So,
  as records, candidates with the same refresh rate are equal values, and
  stability is not visible in the selected value. Stability is still proved
  for any sequence of modes (`StableSortIsStable`). The fallback is also
  proved to pick the earliest candidate of lowest refresh rate
  (`StableSortHead`, `SelectFallback`).
- The for-each loop with an unconditional `break` at `App.java:92-95` runs
  at most once. It is modelled as "if the array is non-empty, select its
  first element".
- The display modes, the desktop mode and the render-loop observations are
  parameters. They are what LWJGL and Nifty would report.

## Model

| member | source | states |
|---|---|---|
| `Modes.Candidates` | src/main/java/com/niftytest/App.java:62-69 | a mode is in the candidate list exactly when it is in the enumeration and is 1024x768 at 32 bpp; the list is no longer than the enumeration |
| `Modes.CandidatesAppend` | src/main/java/com/niftytest/App.java:62-69 | filtering distributes over concatenation, so candidates keep their enumeration order |
| `Modes.ExactMatch` | src/main/java/com/niftytest/App.java:72-79 | the scan finds nothing exactly when no candidate has the desktop's refresh rate; what it finds is a candidate with that rate |
| `Modes.ExactMatchIsFirst` | src/main/java/com/niftytest/App.java:73-77 | the scan returns the earliest candidate with the desktop's refresh rate (the `break`) |
| `Modes.CompareFrequency` | src/main/java/com/niftytest/App.java:82-90 | the comparator returns 1, -1 or 0 exactly when the first refresh rate is higher than, lower than or equal to the second |
| `Modes.CompareFrequencyAntisymmetric` | src/main/java/com/niftytest/App.java:82-90 | compare(o1, o2) == -compare(o2, o1) |
| `Modes.CompareFrequencyTransitive` | src/main/java/com/niftytest/App.java:82-90 | the comparator is transitive, and modes it ties compare alike with every third mode |
| `FrequencySort.StableSort` | src/main/java/com/niftytest/App.java:82-90 | the sorted candidates are a permutation of the candidates, with non-decreasing refresh rates |
| `FrequencySort.InsertPermutes` | src/main/java/com/niftytest/App.java:82-90 | one insertion step adds the inserted mode and keeps all others (multiset) |
| `FrequencySort.InsertSorted` | src/main/java/com/niftytest/App.java:82-90 | one insertion step into a sorted prefix keeps it sorted |
| `FrequencySort.StableSortIsStable` | src/main/java/com/niftytest/App.java:82-90 | for every refresh rate, the modes with that rate come out in their original relative order |
| `FrequencySort.FirstMinimum` | src/main/java/com/niftytest/App.java:81-95 | reference definition: an index whose refresh rate is at most every other, with every earlier one strictly higher |
| `FrequencySort.StableSortHead` | src/main/java/com/niftytest/App.java:82-95 | the first element after the sort is the earliest mode of lowest refresh rate |
| `Selection.Select` | src/main/java/com/niftytest/App.java:59-96 | a selected mode is an enumerated 1024x768x32 mode; nothing is selected exactly when no enumerated mode is a candidate |
| `Selection.SelectExactMatch` | src/main/java/com/niftytest/App.java:73-79 | if a candidate has the desktop's refresh rate, the selection is the first such mode in enumeration order |
| `Selection.SelectFallback` | src/main/java/com/niftytest/App.java:81-95 | otherwise, if candidates exist, the selection is the earliest candidate of lowest refresh rate, and its rate is at most every candidate's |
| `Selection.JDiv` | src/main/java/com/niftytest/App.java:98-99 | Java `int` division: the remainder has the dividend's sign and is smaller in magnitude than the divisor |
| `Selection.JDivOfNegative` | src/main/java/com/niftytest/App.java:98-99 | -1 / 2 is 0 in Java, while Dafny's Euclidean division gives -1 |
| `Selection.WindowLocation` | src/main/java/com/niftytest/App.java:98-99 | each coordinate is half the desktop-minus-window difference on that axis, rounded toward zero |
| `Selection.CenteredOnFullHd` | src/main/java/com/niftytest/App.java:98-99 | a 1024x768 window on a 1920x1080 desktop is placed at (448, 156) |
| `Selection.NoCandidates` | src/main/java/com/niftytest/App.java:71-99 | with no candidate nothing is selected, the desktop mode stays active and the window is placed at (0, 0) |
| `Bootstrap.CollectCandidates` | src/main/java/com/niftytest/App.java:62-69 | the list built by the appending loop is the candidate filter of the enumeration |
| `Bootstrap.FindFrequency` | src/main/java/com/niftytest/App.java:72-79 | found: the index holds the desktop's refresh rate and no earlier element does; not found: no element does |
| `Bootstrap.InsertInPlace` | src/main/java/com/niftytest/App.java:82-90 | one pass of the in-place sort turns the prefix into its insertion of the next element and leaves the rest alone |
| `Bootstrap.SortByFrequency` | src/main/java/com/niftytest/App.java:82-90 | after the in-place sort the array holds the stable sort of its former contents: sorted and a permutation |
| `Bootstrap.InitDisplay` | src/main/java/com/niftytest/App.java:59-99 | the mode passed to `setDisplayMode` is `Select`'s, and the location is the centring of the active mode on the desktop |
| `RenderLoop.Run` | src/main/java/com/niftytest/App.java:171-185 | no iteration starts when close is requested; only the last iteration may see an exit from `update`; the loop stopped exactly when one of these ended it |
| `RenderLoop.RunStopsAtFirstSignal` | src/main/java/com/niftytest/App.java:173-178 | a close request stops before its iteration; an exit from `update` stops right after the iteration that rendered it |
| `RenderLoop.RunWithoutSignal` | src/main/java/com/niftytest/App.java:173-184 | without a close request or an exit the loop runs through the whole trace |
| `RenderLoop.RenderLoop` | src/main/java/com/niftytest/App.java:171-185 | the loop's iteration count and stop agree with `Run`; `render` is called once per iteration |

## Left out

- LWJGL effects: `Display.setDisplayMode`, `setLocation`, `setFullscreen`, `create` with the 3.2 core-profile context, `setVSyncEnabled`, `setTitle`, `update` and `destroy`. They change the library's global window state. The model states only which mode and which location would be passed.
- `initGL`: OpenGL state calls with floating-point clear colours.
- `initNifty`, the style and control file loading and the declarative screen built in `createIntroScreen`. They configure the external GUI library and have no behaviour of their own.
- `getText`: file I/O with a constant fallback string.
- `initInput`, `shutDown`, `System.exit` and the `exit` event subscriber of `MyScreenController`. They are calls into the libraries and the JVM. The subscriber's effect appears only as the `exitRequested` observation of a frame.
- The `glGetError` check and its `System.err` logging in the render loop. These are output only and do not affect termination.
- Selection.JDiv: Java 32-bit overflow is not modelled (integers are unbounded). This includes `Integer.MIN_VALUE / -1` and overflow in the centring subtraction. Screen dimensions are far below the `int` range.
- RenderLoop.RenderLoop: the loop checks `done` before `isCloseRequested`, while Java's condition polls `isCloseRequested` first. Polling the flag has no effect in this model, so the outcome is the same. A trace that ends before the loop stops yields `stopped == false`; the real loop would keep polling.
