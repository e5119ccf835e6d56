# pyperclyp clipboard history, modelled in Dafny

pyperclyp is a small desktop clipboard manager. A `ClipboardManager` polls the
operating-system clipboard once a second. It records every clipboard text it has
not seen before in `clipboard_contents`, and shows each recorded text in a
listbox as two rows: the text, then a separator row of 22 dashes. A
double-click on a listbox row copies that row's text back to the clipboard,
unless the text is empty.

The model has three modules:

- `History` (`history.dfy`): the deduplicating append of one poll as the
  function `Observe`; the history that a whole run of polls builds from an empty
  list as `Distinct`; and the proof that this history is exactly the run's
  distinct values in order of first observation. `FirstOccurrenceOrder` states
  that order independently of the polling code.
- `Listbox` (`listbox.dfy`): the listbox rows. `Mirrors` is the row layout
  (twice as many rows as entries, entry `k` on row `2k`, the separator on row
  `2k + 1`). `Render` builds the rows by inserting an entry and a separator per
  history entry. Lemmas show that the two agree.
- `Manager` (`manager.dfy`): the class `ClipboardManager`. Its fields are
  `contents` (the history), `display` (the listbox rows) and `pollScheduled`
  (whether the next poll is scheduled). A ghost field `observed` keeps every
  successfully read value. `Valid()` is the class invariant: the history is
  `Distinct(observed)`, it has no duplicates, and the rows mirror it. The
  constructor, `Update` (one poll) and `CopyToClipboard` (one recall) keep it.
  `PollAndRecall` is a client that runs the polls and recalls of a short
  session against the class contracts.

The clipboard itself is not called. A poll receives the outcome of
`pyperclip.paste()` as a `ReadResult` (`Ok(text)` or `Fail`). A recall returns
`Some(text)` for the text it would hand to `pyperclip.copy()`, or `None` when it
copies nothing.

Three points of the code shape the model:

- A failed read stops polling: the `return` at main.py:77 comes before the
  `root.after` at main.py:86, so `Update` sets `pollScheduled` to false, and
  `Update` runs only while a poll is scheduled.
- Recall reads the selected listbox row (main.py:95), not a history index, so
  an odd row copies the separator. Nothing is copied when the row's text is
  empty (main.py:96), so an empty-string entry is recorded but never copied
  back.
- The first poll runs inside the constructor: `__init__` calls
  `_initialize_ui` (main.py:46), which calls `_update_listbox` (main.py:68).
  The constructor therefore takes the outcome of that first read. The empty
  history and empty listbox of main.py:45 are the state that first poll starts
  from.

## Model

| member | source | states |
|---|---|---|
| `History.Observe` | pyperclyp/main.py:79-80 | the value is recorded afterwards; the old history is a prefix of the new one; an already-recorded value leaves the history unchanged; a new value is appended as exactly one entry at the end; the recorded values are the old ones plus the new one; no duplicates are introduced |
| `History.ObserveIdempotent` | pyperclyp/main.py:79 | observing the same value twice in a row changes nothing the second time |
| `History.DistinctIsFirstOccurrenceOrder` | pyperclyp/main.py:79-80 | the history built by any run of polls holds each distinct observed value exactly once, and nothing else, ordered by first observation |
| `History.DistinctCharacterized` | pyperclyp/main.py:79-80 | a sequence is the history of a run if and only if it lists the run's distinct values once each in order of first observation |
| `History.DistinctGrowsByAppend` | pyperclyp/main.py:79-80 | later polls only append: the history of a run is a prefix of the history of any extension of the run, so no entry is ever removed or moved |
| `Listbox.MirrorsAppend` | pyperclyp/main.py:80-82 | appending an entry to the history and inserting that entry and a separator row keeps the listbox layout |
| `Listbox.RenderMirrors` | pyperclyp/main.py:81-82 | inserting an entry row and a separator row per history entry gives twice as many rows, with entry `k` on row `2k` and the separator on row `2k + 1` |
| `Listbox.MirrorsIffRender` | pyperclyp/main.py:81-82 | rows satisfy that layout for a history if and only if they are the rows inserted for that history |
| `Listbox.RowAt` | pyperclyp/main.py:81-82 | in rows with that layout, an even row holds history entry `row / 2` and an odd row holds the separator |
| `Manager.PollKeepsInvariant` | pyperclyp/main.py:79-82 | a successful poll keeps the history equal to the history of all reads so far, free of duplicates, and mirrored by the listbox rows |
| `Manager.ClipboardManager.constructor` | pyperclyp/main.py:37-68 | starting from an empty history and an empty listbox, the first poll leaves one entry and its two rows with the next poll scheduled on a successful read, or an empty history and listbox with no poll scheduled on a failed read; the invariant holds |
| `Manager.ClipboardManager.Update` | pyperclyp/main.py:70-86 | a failed read changes neither the history nor the listbox and schedules no further poll; a successful read records the value by `Observe`, inserts the value and a separator row exactly when the value was new, and schedules the next poll; it runs only when a poll is scheduled, so nothing is polled after a failed read; the invariant (history of all reads, no duplicates, row layout) is kept |
| `Manager.ClipboardManager.CopyToClipboard` | pyperclyp/main.py:88-98 | the selected row's text is copied exactly when it is non-empty; an even row copies history entry `row / 2` unless that entry is empty; an odd row copies the separator; history and listbox are unchanged |

## Left out

- The tkinter window, frame, label, listbox geometry, scrollbar and the
  `yview` auto-scroll (main.py:48-67, main.py:85): presentation only. The
  listbox is modelled by its rows as a sequence of strings.
- `pyperclip.paste()` and `pyperclip.copy()` (main.py:73, main.py:98): calls
  into the operating-system clipboard. The read outcome is a parameter of
  `Update`; the text to write is the result of `CopyToClipboard`.
- The failure branch of the copy (main.py:100-102): it only logs and shows a
  dialog and changes no state, so the model has nothing to record for it.
- `root.after(1000, ...)` and the tkinter event loop (main.py:86,
  main.py:105-113): timing is not modelled; only whether the next poll is
  scheduled is kept, in `pollScheduled`.
- `listbox.curselection()` with no selection or with several selected rows
  (main.py:95): tkinter behaviour outside this model. A selection is one row
  index, and `CopyToClipboard` requires it to be a row of the listbox.
- Logging configuration, log messages and `messagebox` dialogs (main.py:24-25,
  main.py:75-76, main.py:83, main.py:99-102): output only, with no effect on the
  state.
- Text is compared by exact equality of character sequences, as Python compares
  `str` values; no normalisation happens in the code either.
