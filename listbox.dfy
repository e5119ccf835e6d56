/** The rows of the pyperclyp listbox: every recorded entry is shown as its
    own row followed by a separator row. */
module Listbox {

  /** The text inserted into the listbox after every recorded entry. */
  const Separator: string := "----------------------"

  /** `rows` shows `h`: twice as many rows, entry `k` on row `2k` and a
      separator on row `2k + 1`. */
  predicate Mirrors(rows: seq<string>, h: seq<string>)
  {
    && |rows| == 2 * |h|
    && forall k :: 0 <= k < |h| ==> rows[2 * k] == h[k] && rows[2 * k + 1] == Separator
  }

  /** The rows produced by inserting each entry of `h`, then a separator, in order. */
  function Render(h: seq<string>): seq<string>
  {
    if h == [] then [] else Render(h[..|h| - 1]) + [h[|h| - 1], Separator]
  }

  /** Inserting an entry and a separator at the end keeps the rows in step with
      the history that gains that entry. */
  lemma MirrorsAppend(rows: seq<string>, h: seq<string>, v: string)
    requires Mirrors(rows, h)
    ensures Mirrors(rows + [v, Separator], h + [v])
  {
    var rows', h' := rows + [v, Separator], h + [v];
    forall k | 0 <= k < |h'|
      ensures rows'[2 * k] == h'[k] && rows'[2 * k + 1] == Separator
    {
      if k < |h| {
        assert rows'[2 * k] == rows[2 * k] && rows'[2 * k + 1] == rows[2 * k + 1];
      }
    }
  }

  /** `Render` lays the rows out as `Mirrors` describes. */
  lemma {:induction false} RenderMirrors(h: seq<string>)
    ensures Mirrors(Render(h), h)
  {
    if h != [] {
      var init := h[..|h| - 1];
      RenderMirrors(init);
      MirrorsAppend(Render(init), init, h[|h| - 1]);
      assert init + [h[|h| - 1]] == h;
    }
  }

  /** The layout determines the rows: they mirror `h` exactly when they are
      the rows rendered from `h`. */
  lemma MirrorsIffRender(rows: seq<string>, h: seq<string>)
    ensures Mirrors(rows, h) <==> rows == Render(h)
  {
    RenderMirrors(h);
    if Mirrors(rows, h) {
      var r := Render(h);
      forall i | 0 <= i < |rows|
        ensures rows[i] == r[i]
      {
        var k := i / 2;
        if i % 2 == 0 {
          assert i == 2 * k;
        } else {
          assert i == 2 * k + 1;
        }
      }
    }
  }

  /** Row `i` holds entry `i / 2` when `i` is even and the separator when `i` is odd. */
  lemma RowAt(rows: seq<string>, h: seq<string>, i: nat)
    requires Mirrors(rows, h) && i < |rows|
    ensures i % 2 == 0 ==> i / 2 < |h| && rows[i] == h[i / 2]
    ensures i % 2 == 1 ==> rows[i] == Separator
  {
    var k := i / 2;
    if i % 2 == 0 {
      assert i == 2 * k;
    } else {
      assert i == 2 * k + 1;
    }
  }
}
