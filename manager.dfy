/** The ClipboardManager of pyperclyp: the history of distinct clipboard values,
    the listbox rows that show it, and whether the next clipboard poll is
    scheduled. The operating-system clipboard is not called: a poll receives
    the outcome of the clipboard read, and a recall returns the text it would
    write to the clipboard. */
module Manager {
  import opened History
  import opened Listbox

  datatype Option<T> = None | Some(value: T)

  /** The outcome of one read of the operating-system clipboard. */
  datatype ReadResult = Ok(text: string) | Fail

  class ClipboardManager {
    /** The distinct clipboard values seen so far, oldest first. */
    var contents: seq<string>
    /** The rows of the listbox. */
    var display: seq<string>
    /** Whether a later poll of the clipboard has been scheduled. */
    var pollScheduled: bool
    /** Every value read successfully so far, repetitions included. */
    ghost var observed: seq<string>

    ghost predicate Valid()
      reads this
    {
      && contents == Distinct(observed)
      && NoDuplicates(contents)
      && Mirrors(display, contents)
    }

    /** Starts with an empty history and an empty listbox, then polls the
        clipboard once, with the outcome `firstRead`: that first poll is a
        direct call, so it runs without having been scheduled. */
    constructor (firstRead: ReadResult)
      ensures Valid()
      ensures firstRead.Ok? ==>
        && observed == [firstRead.text]
        && contents == [firstRead.text]
        && display == [firstRead.text, Separator]
        && pollScheduled
      ensures firstRead.Fail? ==>
        observed == [] && contents == [] && display == [] && !pollScheduled
    {
      contents := [];
      display := [];
      pollScheduled := true;
      observed := [];
      new;
      assert Distinct([]) == [] && Mirrors([], []);
      if firstRead.Ok? {
        var text := firstRead.text;
        assert Observe([], text) == [text];
        assert [] + [text] == [text];
        assert [] + [text, Separator] == [text, Separator];
        Update(firstRead);
      } else {
        Update(firstRead);
      }
    }

    /** One poll: on a failed read nothing is recorded and no further poll is
        scheduled; on a successful read the value is appended to the history,
        and shown as an entry row and a separator row, unless an equal value is
        already recorded, and the next poll is scheduled. A poll only runs when
        it was scheduled, so after a failed read no poll runs again. */
    method Update(read: ReadResult)
      requires Valid()
      requires pollScheduled
      modifies this
      ensures Valid()
      ensures read.Fail? ==>
        && contents == old(contents)
        && display == old(display)
        && observed == old(observed)
        && !pollScheduled
      ensures read.Ok? ==>
        && observed == old(observed) + [read.text]
        && contents == Observe(old(contents), read.text)
        && display == old(display) + (if read.text in old(contents) then [] else [read.text, Separator])
        && pollScheduled
    {
      if read.Fail? {
        pollScheduled := false;
        return;
      }
      var newItem := read.text;
      ghost var h, rows, obs := contents, display, observed;
      if newItem !in contents {
        contents := contents + [newItem];
        display := display + [newItem];
        display := display + [Separator];
        assert display == rows + [newItem, Separator];
      } else {
        assert rows + [] == rows;
      }
      assert contents == Observe(h, newItem);
      assert display == rows + (if newItem in h then [] else [newItem, Separator]);
      observed := observed + [newItem];
      PollKeepsInvariant(obs, h, rows, newItem);
      pollScheduled := true;
    }

    /** Recall of listbox row `row`: its text is what would be copied to the
        clipboard, unless the text is empty, in which case nothing is copied.
        An even row holds a history entry, an odd row a separator. */
    method CopyToClipboard(row: nat) returns (copied: Option<string>)
      requires Valid()
      requires row < |display|
      ensures copied.Some? <==> display[row] != ""
      ensures copied.Some? ==> copied.value == display[row]
      ensures row % 2 == 0 ==>
        && row / 2 < |contents|
        && copied == (if contents[row / 2] == "" then None else Some(contents[row / 2]))
      ensures row % 2 == 1 ==> copied == Some(Separator)
    {
      RowAt(display, contents, row);
      var selectedItem := display[row];
      if selectedItem != "" {
        copied := Some(selectedItem);
      } else {
        copied := None;
      }
    }
  }

  /** A successful poll keeps the history equal to the history of all reads,
      free of duplicates, and mirrored by the listbox rows. */
  lemma PollKeepsInvariant(obs: seq<string>, h: seq<string>, rows: seq<string>, v: string)
    requires h == Distinct(obs) && NoDuplicates(h) && Mirrors(rows, h)
    ensures Observe(h, v) == Distinct(obs + [v])
    ensures NoDuplicates(Observe(h, v))
    ensures Mirrors(rows + (if v in h then [] else [v, Separator]), Observe(h, v))
  {
    DistinctSnoc(obs, v);
    if v in h {
      assert rows + [] == rows;
    } else {
      MirrorsAppend(rows, h, v);
    }
  }

  /** A run of polls and recalls, as seen by a caller of the class. */
  method PollAndRecall()
  {
    var m := new ClipboardManager(Ok("apple"));
    assert m.contents == ["apple"];
    assert "banana" !in m.contents;
    m.Update(Ok("banana"));
    assert m.contents == ["apple", "banana"];
    assert "apple" in m.contents;
    m.Update(Ok("apple"));
    assert m.contents == ["apple", "banana"] && m.pollScheduled;
    m.Update(Fail);
    assert m.contents == ["apple", "banana"] && !m.pollScheduled;
    var copied := m.CopyToClipboard(2);
    assert copied == Some("banana");
    copied := m.CopyToClipboard(3);
    assert copied == Some(Separator);
  }
}
