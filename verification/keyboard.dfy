/**
 * The reply keyboard shown by the start command (main.py:52): the pair list
 * cut into consecutive rows of two buttons.
 */
module Keyboard {
  import opened Bot

  /** Buttons per keyboard row, the step of the `range` in main.py:52. */
  const RowWidth: nat := 2

  function Min(a: int, b: int): int { if a <= b then a else b }

  /** The rows laid end to end. */
  function Flatten<T>(rows: seq<seq<T>>): seq<T> {
    if rows == [] then [] else rows[0] + Flatten(rows[1..])
  }

  /**
   * `[s[i:i + 2] for i in range(0, len(s), 2)]`: consecutive slices of two
   * items, the last one a single item when `|s|` is odd.
   */
  function Rows<T>(s: seq<T>): (rows: seq<seq<T>>)
    ensures |rows| == (|s| + RowWidth - 1) / RowWidth
    ensures forall k :: 0 <= k < |rows| ==> 1 <= |rows[k]| <= RowWidth
    ensures forall k :: 0 <= k < |rows| - 1 ==> |rows[k]| == RowWidth
    ensures Flatten(rows) == s
    decreases |s|
  {
    if s == [] then []
    else
      var n := Min(RowWidth, |s|);
      var rest := Rows(s[n..]);
      assert ([s[..n]] + rest)[1..] == rest;
      assert s[..n] + s[n..] == s;
      [s[..n]] + rest
  }

  /**
   * Row `k` is exactly the slice the comprehension takes for `i = 2 * k`,
   * cut off at the end of the list.
   */
  lemma {:induction false} RowsAt<T>(s: seq<T>, k: nat)
    requires k < |Rows(s)|
    ensures RowWidth * k < |s|
    ensures Rows(s)[k] == s[RowWidth * k .. Min(RowWidth * (k + 1), |s|)]
  {
    var n := Min(RowWidth, |s|);
    if k > 0 {
      RowsAt(s[n..], k - 1);
      assert s[n..][RowWidth * (k - 1) .. Min(RowWidth * k, |s| - n)] == s[RowWidth * k .. Min(RowWidth * (k + 1), |s|)];
    }
  }

  /** The keyboard built by the start command: every pair once, in list order, two to a row. */
  function Layout(): (rows: seq<seq<string>>)
    ensures Flatten(rows) == OtcPairs
    ensures |rows| == 4 && forall k :: 0 <= k < |rows| ==> |rows[k]| == RowWidth
  {
    RowsAt(OtcPairs, 3);
    Rows(OtcPairs)
  }

  /** With the eight configured pairs the keyboard has four full rows, in list order. */
  lemma LayoutIsFourRowsOfTwo()
    ensures Layout() == [
      ["AED/CNY OTC", "AUD/CHF OTC"], ["BHD/CNY OTC", "EUR/USD OTC"],
      ["CAD/CHF OTC", "NZD/JPY OTC"], ["EUR/CHF OTC", "GBP/JPY OTC"]
    ]
  {
    var rows := Layout();
    assert |rows| == 4;
    forall k | 0 <= k < 4 ensures rows[k] == [OtcPairs[RowWidth * k], OtcPairs[RowWidth * k + 1]] {
      RowsAt(OtcPairs, k);
    }
  }
}
