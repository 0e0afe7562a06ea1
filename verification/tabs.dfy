/**
 * Tab expansion. A row's raw bytes are shown with every tab widened to the
 * next tab stop (`KILO_TAB_STOP`, 8). Two definitions follow the two places
 * the editor applies that rule: `RenderCol` is the running column that
 * `editorRowCxToRx` keeps, and `Render` is the buffer `editorUpdateRow`
 * builds, whose length plays the part of the column. The lemmas show that
 * they agree and what the expansion looks like.
 */
module Tabs {
  import opened Bytes

  const TAB_STOP: nat := 8

  /** Spaces a tab occupies when it starts at column `col`: always 1 to 8. */
  function TabWidth(col: nat): (w: nat)
    ensures 1 <= w <= TAB_STOP
    ensures (col + w) % TAB_STOP == 0
  {
    TAB_STOP - col % TAB_STOP
  }

  /** The column after byte `b` when `b` starts at column `rx`. */
  function NextCol(rx: nat, b: Byte): nat
  {
    if b == TAB then rx + (TAB_STOP - 1) - rx % TAB_STOP + 1 else rx + 1
  }

  /** The render column reached after the bytes `s`. */
  function RenderCol(s: seq<Byte>): nat
  {
    if s == [] then 0 else NextCol(RenderCol(s[..|s| - 1]), s[|s| - 1])
  }

  /** What byte `b` becomes when written at render offset `col`. */
  function Expand(col: nat, b: Byte): seq<Byte>
  {
    if b == TAB then Spaces(TabWidth(col)) else [b]
  }

  /** The rendered form of raw bytes `s`. */
  function Render(s: seq<Byte>): seq<Byte>
  {
    if s == [] then [] else
      var p := Render(s[..|s| - 1]);
      p + Expand(|p|, s[|s| - 1])
  }

  function TabCount(s: seq<Byte>): nat
  {
    if s == [] then 0 else TabCount(s[..|s| - 1]) + (if s[|s| - 1] == TAB then 1 else 0)
  }

  /** The rendered length is the render column of the end of the row (`rsize == editorRowCxToRx(row, size)`). */
  lemma {:induction false} RenderLength(s: seq<Byte>)
    ensures |Render(s)| == RenderCol(s)
  {
    if s != [] {
      RenderLength(s[..|s| - 1]);
    }
  }

  /** The rendered form holds no tab byte. */
  lemma {:induction false} RenderHasNoTab(s: seq<Byte>)
    ensures TAB !in Render(s)
  {
    if s != [] {
      RenderHasNoTab(s[..|s| - 1]);
    }
  }

  /** Each byte adds at least one column and each tab at most eight. */
  lemma {:induction false} RenderColBounds(s: seq<Byte>)
    ensures |s| <= RenderCol(s) <= |s| + (TAB_STOP - 1) * TabCount(s)
  {
    if s != [] {
      RenderColBounds(s[..|s| - 1]);
    }
  }

  /** Without tabs, render columns are byte indices. */
  lemma {:induction false} RenderColWithoutTabs(s: seq<Byte>)
    requires TAB !in s
    ensures RenderCol(s) == |s|
  {
    if s != [] {
      assert s[..|s| - 1] <= s;
      RenderColWithoutTabs(s[..|s| - 1]);
    }
  }

  /** Without tabs, rendering copies the row; so rendering a rendered row changes nothing. */
  lemma {:induction false} RenderWithoutTabs(s: seq<Byte>)
    requires TAB !in s
    ensures Render(s) == s
  {
    if s != [] {
      assert s[..|s| - 1] <= s;
      RenderWithoutTabs(s[..|s| - 1]);
    }
  }

  lemma RenderIdempotent(s: seq<Byte>)
    ensures Render(Render(s)) == Render(s)
  {
    RenderHasNoTab(s);
    RenderWithoutTabs(Render(s));
  }

  /** `RenderCol` of a longer prefix is larger: the map from `cx` to `rx` is strictly increasing. */
  lemma {:induction false} RenderColIncreasing(s: seq<Byte>, i: nat, j: nat)
    requires i < j <= |s|
    ensures RenderCol(s[..i]) < RenderCol(s[..j])
    decreases j
  {
    assert s[..j][..j - 1] == s[..j - 1];
    if i < j - 1 {
      RenderColIncreasing(s, i, j - 1);
    }
  }

  /** Rendering a prefix of the row gives a prefix of the rendered row. */
  lemma {:induction false} RenderPrefix(s: seq<Byte>, j: nat)
    requires j <= |s|
    ensures Render(s[..j]) <= Render(s)
    decreases |s|
  {
    if j < |s| {
      var p := s[..|s| - 1];
      assert p[..j] == s[..j];
      RenderPrefix(p, j);
    } else {
      assert s[..j] == s;
    }
  }

  /**
   * Byte `k` of the row occupies render columns `RenderCol(s[..k])` up to
   * `RenderCol(s[..k+1])`: a non-tab byte is copied there, in order, and a
   * tab is 1 to 8 spaces that end on a tab stop.
   */
  lemma RenderPlacement(s: seq<Byte>, k: nat)
    requires k < |s|
    ensures RenderCol(s[..k]) < RenderCol(s[..k + 1]) <= |Render(s)|
    ensures s[k] != TAB ==> RenderCol(s[..k + 1]) == RenderCol(s[..k]) + 1
                            && Render(s)[RenderCol(s[..k])] == s[k]
    ensures s[k] == TAB ==> RenderCol(s[..k + 1]) % TAB_STOP == 0
                            && RenderCol(s[..k + 1]) - RenderCol(s[..k]) <= TAB_STOP
                            && forall i :: RenderCol(s[..k]) <= i < RenderCol(s[..k + 1]) ==> Render(s)[i] == SPACE
  {
    var pre, post := s[..k], s[..k + 1];
    RenderStep(s, k);
    RenderLength(pre);
    RenderLength(post);
    RenderPrefix(s, k + 1);
    RenderLength(s);
    var col := |Render(pre)|;
    var e := Expand(col, s[k]);
    forall i | 0 <= i < |e|
      ensures Render(s)[col + i] == e[i]
    {
      assert Render(post)[col + i] == e[i];
    }
    if s[k] == TAB {
      assert e == Spaces(TabWidth(col));
      forall i | col <= i < RenderCol(post)
        ensures Render(s)[i] == SPACE
      {
        assert Render(s)[col + (i - col)] == e[i - col];
      }
    } else {
      assert Render(s)[col + 0] == e[0];
    }
  }

  /** Rendering one more byte appends its expansion and advances the column by `NextCol`. */
  lemma RenderStep(s: seq<Byte>, k: nat)
    requires k < |s|
    ensures Render(s[..k + 1]) == Render(s[..k]) + Expand(|Render(s[..k])|, s[k])
    ensures RenderCol(s[..k + 1]) == NextCol(RenderCol(s[..k]), s[k])
  {
    var post := s[..k + 1];
    assert post[..k] == s[..k] && post[k] == s[k];
  }

  /** The example row `a<TAB>b`: `a`, seven spaces, `b`; the cursor after the tab is at column 8. */
  lemma RenderExample()
    ensures Render([97, TAB, 98]) == [97] + Spaces(7) + [98]
    ensures RenderCol([97, TAB]) == 8
  {
    var s: seq<Byte> := [97, TAB, 98];
    assert s[..2] == [97, TAB] && s[..2][..1] == [97] && [97][..0] == [];
    assert RenderCol([97]) == 1;
    assert Render([97]) == [97];
    assert Render([97, TAB]) == [97] + Spaces(7);
    assert Render(s) == [97] + Spaces(7) + [98];
  }
}
