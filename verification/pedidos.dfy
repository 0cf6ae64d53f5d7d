/**
 * The order-number tokeniser `parse_pedidos`, written identically in
 * 2_FORMATAR_PEDIDO.py, pages/3_BACKLOG.py and pages/BACKLOG.py: every
 * non-digit becomes a separator, the digit runs that remain are
 * de-duplicated and returned sorted as strings.
 */
module Pedidos {
  import opened Text

  /** Length of the run of digits that starts `s`. */
  function DigitPrefix(s: string): (k: nat)
    ensures k <= |s| && AllDigits(s[..k])
    ensures k == |s| || !IsDigit(s[k])
  {
    if s == [] || !IsDigit(s[0]) then 0
    else
      var k := 1 + DigitPrefix(s[1..]);
      assert s[..k] == [s[0]] + s[1..][..k - 1];
      k
  }

  /**
   * The tokens left by `re.sub(r'[^\d]', ' ', text)` followed by
   * `re.split(r'\s+', ....strip())` and the `p.isdigit()` filter: the digit
   * runs of `text`, left to right.
   */
  function Runs(s: string): seq<string>
    decreases |s|
  {
    if s == [] then []
    else if !IsDigit(s[0]) then Runs(s[1..])
    else
      var k := DigitPrefix(s);
      [s[..k]] + Runs(s[k..])
  }

  /** `parse_pedidos(text)` */
  function ParsePedidos(text: string): (r: seq<string>)
    ensures text == [] ==> r == []
    ensures StrictlySorted(r)
  {
    if text == [] then [] else SortUnique(Runs(text))
  }

  /** `s[i..j]` is a maximal run of digits of `s`. */
  ghost predicate IsMaximalRun(s: string, i: int, j: int) {
    0 <= i < j <= |s| && AllDigits(s[i..j]) &&
    (i == 0 || !IsDigit(s[i - 1])) && (j == |s| || !IsDigit(s[j]))
  }

  lemma {:induction false} RunsSound(s: string, x: string)
    requires x in Runs(s)
    ensures exists i, j :: IsMaximalRun(s, i, j) && s[i..j] == x
    decreases |s|
  {
    if !IsDigit(s[0]) {
      RunsSound(s[1..], x);
      var i, j :| IsMaximalRun(s[1..], i, j) && s[1..][i..j] == x;
      ShiftRun(s, 1, i, j);
    } else {
      var k := DigitPrefix(s);
      if x == s[..k] {
        assert IsMaximalRun(s, 0, k);
        assert s[0..k] == x;
      } else {
        assert x in Runs(s[k..]);
        RunsSound(s[k..], x);
        var i, j :| IsMaximalRun(s[k..], i, j) && s[k..][i..j] == x;
        ShiftRun(s, k, i, j);
      }
    }
  }

  /** A maximal run of a suffix is one of the whole text when the suffix starts at a run boundary. */
  lemma ShiftRun(s: string, k: int, i: int, j: int)
    requires 0 < k <= |s| && IsMaximalRun(s[k..], i, j)
    requires !IsDigit(s[k - 1]) || !IsDigit(s[k])
    ensures IsMaximalRun(s, k + i, k + j) && s[k + i..k + j] == s[k..][i..j]
  {
    assert s[k + i..k + j] == s[k..][i..j];
    assert s[k..][i..j][0] == s[k + i];
    if i > 0 {
      assert s[k + i - 1] == s[k..][i - 1];
    }
    if j < |s[k..]| {
      assert s[k + j] == s[k..][j];
    }
  }

  lemma {:induction false} RunsComplete(s: string, i: int, j: int)
    requires IsMaximalRun(s, i, j)
    ensures s[i..j] in Runs(s)
    decreases |s|
  {
    if !IsDigit(s[0]) {
      assert s[i..j][0] == s[i];
      assert i > 0;
      assert s[1..][i - 1..j - 1] == s[i..j];
      assert IsMaximalRun(s[1..], i - 1, j - 1);
      RunsComplete(s[1..], i - 1, j - 1);
      assert s[1..][i - 1..j - 1] == s[i..j];
    } else {
      var k := DigitPrefix(s);
      if i == 0 {
        assert forall m :: 0 <= m < j ==> IsDigit(s[m]) by {
          forall m | 0 <= m < j ensures IsDigit(s[m]) {
            assert s[i..j][m] == s[m];
          }
        }
        assert forall m :: 0 <= m < k ==> IsDigit(s[m]) by {
          forall m | 0 <= m < k ensures IsDigit(s[m]) {
            assert s[..k][m] == s[m];
          }
        }
        assert j == k;
      } else {
        assert forall m :: 0 <= m < k ==> s[..k][m] == s[m];
        assert k < i;
        assert IsMaximalRun(s[k..], i - k, j - k) by {
          assert s[k..][i - k..j - k] == s[i..j];
          assert s[k..][i - k - 1] == s[i - 1];
        }
        RunsComplete(s[k..], i - k, j - k);
        assert s[k..][i - k..j - k] == s[i..j];
      }
    }
  }

  /**
   * The result of `parse_pedidos` is exactly the set of maximal digit runs of
   * the text, without repeats, in ascending string order.
   */
  lemma ParsePedidosExact(text: string, x: string)
    ensures x in ParsePedidos(text) <==> exists i, j :: IsMaximalRun(text, i, j) && text[i..j] == x
  {
    if x in ParsePedidos(text) {
      RunsSound(text, x);
    }
    if exists i, j :: IsMaximalRun(text, i, j) && text[i..j] == x {
      var i, j :| IsMaximalRun(text, i, j) && text[i..j] == x;
      RunsComplete(text, i, j);
    }
  }

  /** Every order number returned is a non-empty string of digits. */
  lemma ParsePedidosDigits(text: string, x: string)
    requires x in ParsePedidos(text)
    ensures x != [] && AllDigits(x)
  {
    ParsePedidosExact(text, x);
  }

  /** Sorting is by string, not by number: "10" comes before "9". */
  lemma ParsePedidosStringOrder()
    ensures ParsePedidos("9 10") == ["10", "9"]
  {
    var s := "9 10";
    assert s == "9" + " 10" && " 10"[1..] == "10" && "10" == "10" + [];
    RunsDigitsThen("9", " 10");
    SkipSeparators(" 10", 1);
    RunsDigitsThen("10", []);
    assert Runs(s) == ["9", "10"];
    assert Less("10", "9");
    StrictlySortedUnique(ParsePedidos(s), ["10", "9"]);
  }

  /** The example "Pedido 123, 045 e 123-A" parses to ["045", "123"]. */
  lemma ParsePedidosExample(text: string)
    requires text == "Pedido 123, 045 e 123-A"
    ensures ParsePedidos(text) == ["045", "123"]
  {
    RunsOfExample(text, ", 045 e 123-A", " e 123-A", "-A");
    var r := ParsePedidos(text);
    assert forall x :: x in r <==> x == "045" || x == "123";
    assert Less("045", "123");
    StrictlySortedUnique(r, ["045", "123"]);
  }

  lemma RunsOfExample(s: string, t2: string, t4: string, t6: string)
    requires t6 == "-A" && t4 == " e 123" + t6 && t2 == ", 045" + t4 && s == "Pedido 123" + t2
    ensures Runs(s) == ["123", "045", "123"]
  {
    assert s == "Pedido " + "123" + t2;
    RunsSeparatorDigits("Pedido ", "123", t2);
    assert t2 == ", " + "045" + t4;
    RunsSeparatorDigits(", ", "045", t4);
    assert t4 == " e " + "123" + t6;
    RunsSeparatorDigits(" e ", "123", t6);
    SkipSeparators(t6, 2);
    assert t6[2..] == [];
  }

  /** Separators, then one run of digits, then a separator (or the end). */
  lemma RunsSeparatorDigits(sep: string, d: string, t: string)
    requires forall i :: 0 <= i < |sep| ==> !IsDigit(sep[i])
    requires d != [] && AllDigits(d)
    requires t == [] || !IsDigit(t[0])
    ensures Runs(sep + d + t) == [d] + Runs(t)
  {
    ConcatAssoc(sep, d, t);
    SkipSeparatorPrefix(sep, d + t);
    RunsDigitsThen(d, t);
  }

  /** A block of non-digits in front contributes no run. */
  lemma SkipSeparatorPrefix(sep: string, u: string)
    requires forall i :: 0 <= i < |sep| ==> !IsDigit(sep[i])
    ensures Runs(sep + u) == Runs(u)
  {
    SkipSeparators(sep + u, |sep|);
    assert (sep + u)[|sep|..] == u;
  }

  /** Leading non-digits contribute no run. */
  lemma {:induction false} SkipSeparators(s: string, n: nat)
    requires n <= |s|
    requires forall i :: 0 <= i < n ==> !IsDigit(s[i])
    ensures Runs(s) == Runs(s[n..])
    decreases n
  {
    if n > 0 {
      SkipSeparators(s[1..], n - 1);
      assert s[1..][n - 1..] == s[n..];
    }
  }

  /** A run of digits followed by a non-digit (or the end) is the first run. */
  lemma RunsDigitsThen(d: string, t: string)
    requires d != [] && AllDigits(d)
    requires t == [] || !IsDigit(t[0])
    ensures Runs(d + t) == [d] + Runs(t)
  {
    var s := d + t;
    assert DigitPrefix(s) == |d| by {
      DigitPrefixOf(d, t);
    }
    assert s[..|d|] == d && s[|d|..] == t;
  }

  lemma {:induction false} DigitPrefixOf(d: string, t: string)
    requires AllDigits(d)
    requires t == [] || !IsDigit(t[0])
    ensures DigitPrefix(d + t) == |d|
    decreases |d|
  {
    if d != [] {
      DigitPrefixOf(d[1..], t);
      assert (d + t)[1..] == d[1..] + t;
    }
  }

  /** `Runs` recovers the order numbers from their `", "`-joined rendering. */
  lemma {:induction false} RunsOfJoin(xs: seq<string>)
    requires forall k :: 0 <= k < |xs| ==> xs[k] != [] && AllDigits(xs[k])
    ensures Runs(Join(xs, ", ")) == xs
    decreases |xs|
  {
    if |xs| == 1 {
      RunsDigitsThen(xs[0], []);
      assert xs[0] + [] == xs[0];
    } else if |xs| > 1 {
      var rest := Join(xs[1..], ", ");
      assert Join(xs, ", ") == xs[0] + (", " + rest);
      RunsDigitsThen(xs[0], ", " + rest);
      SkipSeparators(", " + rest, 2);
      assert (", " + rest)[2..] == rest;
      RunsOfJoin(xs[1..]);
    }
  }

  /**
   * Re-parsing the preview (the parsed numbers joined by ", ", as the pages
   * display them) gives the same numbers back.
   */
  lemma ParsePedidosIdempotent(text: string)
    ensures ParsePedidos(Join(ParsePedidos(text), ", ")) == ParsePedidos(text)
  {
    var p := ParsePedidos(text);
    forall k | 0 <= k < |p| ensures p[k] != [] && AllDigits(p[k]) {
      ParsePedidosDigits(text, p[k]);
    }
    RunsOfJoin(p);
    if p != [] {
      assert Join(p, ", ") != [] by {
        if |p| == 1 { } else { assert |Join(p, ", ")| >= |p[0]|; }
      }
      StrictlySortedUnique(SortUnique(p), p);
    }
  }
}
