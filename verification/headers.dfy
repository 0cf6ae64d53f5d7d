/**
 * The header row of a BUSCAR.py tab (`load_sheet_as_df`): every header is
 * stripped and upper-cased, then a repeated name gets the number of earlier
 * occurrences appended, so the k-th repeat of `NAME` becomes `NAME_k`.
 *
 * This does not always make the headers unique: a literal `X_1` after two
 * `X` headers collides with the renamed second `X` (see `RenamingCollides`).
 */
module Headers {
  import opened Text

  /** `[h.strip().upper() for h in data[1]]` */
  function NormalizeAll(row: seq<string>): (hs: seq<string>)
    ensures |hs| == |row| && forall i :: 0 <= i < |row| ==> hs[i] == Normalize(row[i])
  {
    seq(|row|, i requires 0 <= i < |row| => Normalize(row[i]))
  }

  /**
   * The name header `i` gets: unchanged at its first occurrence, otherwise
   * suffixed with how many times it occurred before.
   */
  function Renamed(hs: seq<string>, i: int): string
    requires 0 <= i < |hs|
  {
    var c := multiset(hs[..i])[hs[i]];
    if c == 0 then hs[i] else hs[i] + "_" + NatToString(c)
  }

  /** The renamed header row. */
  function Deduplicated(hs: seq<string>): (r: seq<string>)
    ensures |r| == |hs| && forall i :: 0 <= i < |hs| ==> r[i] == Renamed(hs, i)
  {
    seq(|hs|, i requires 0 <= i < |hs| => Renamed(hs, i))
  }

  /** `load_sheet_as_df`'s headers: normalised, then renamed. */
  method UniqueHeaders(row: seq<string>) returns (headers: seq<string>)
    ensures headers == Deduplicated(NormalizeAll(row))
  {
    headers := RenameRepeats(NormalizeAll(row));
  }

  /**
   * The header loop of `load_sheet_as_df`, with its `seen_headers` dictionary
   * holding, for each name met so far, how many times it has been repeated.
   */
  method RenameRepeats(raw: seq<string>) returns (headers: seq<string>)
    ensures headers == Deduplicated(raw)
  {
    var seen: map<string, nat> := map[];
    headers := [];
    for k := 0 to |raw|
      invariant |headers| == k
      invariant forall i :: 0 <= i < k ==> headers[i] == Renamed(raw, i)
      invariant Counts(seen, raw[..k])
    {
      var header := raw[k];
      assert raw[..k + 1] == raw[..k] + [header];
      CountsStep(seen, raw[..k], header);
      var name;
      if header in seen {
        seen := seen[header := seen[header] + 1];
        name := header + "_" + NatToString(seen[header]);
      } else {
        seen := seen[header := 0];
        name := header;
      }
      assert name == Renamed(raw, k);
      headers := headers + [name];
    }
  }

  /** `seen` holds, for every name of `prefix`, its number of repeats there. */
  ghost predicate Counts(seen: map<string, nat>, prefix: seq<string>) {
    forall h :: (h in seen <==> multiset(prefix)[h] > 0) && (h in seen ==> seen[h] == multiset(prefix)[h] - 1)
  }

  /** One more header updates the dictionary as the loop does. */
  lemma CountsStep(seen: map<string, nat>, prefix: seq<string>, header: string)
    requires Counts(seen, prefix)
    ensures header in seen <==> multiset(prefix)[header] > 0
    ensures header in seen ==> Counts(seen[header := seen[header] + 1], prefix + [header]) && seen[header] + 1 == multiset(prefix)[header]
    ensures header !in seen ==> Counts(seen[header := 0], prefix + [header])
  {
    assert multiset(prefix + [header]) == multiset(prefix) + multiset{header};
  }

  /** Every header keeps its normalised name as a prefix. */
  lemma RenamedPrefix(hs: seq<string>, i: int)
    requires 0 <= i < |hs|
    ensures |hs[i]| <= |Renamed(hs, i)| && Renamed(hs, i)[..|hs[i]|] == hs[i]
  {
  }

  /** Headers whose names are all different come out unchanged. */
  lemma DistinctUnchanged(hs: seq<string>)
    requires forall i, j :: 0 <= i < j < |hs| ==> hs[i] != hs[j]
    ensures Deduplicated(hs) == hs
  {
    forall i | 0 <= i < |hs| ensures Renamed(hs, i) == hs[i] {
      assert hs[i] !in hs[..i];
    }
  }

  /** Two occurrences of the same name never get the same header. */
  lemma SameNameRenamedApart(hs: seq<string>, i: int, j: int)
    requires 0 <= i < j < |hs| && hs[i] == hs[j]
    ensures Renamed(hs, i) != Renamed(hs, j)
  {
    var x := hs[i];
    var ci := multiset(hs[..i])[x];
    var cj := multiset(hs[..j])[x];
    assert hs[..j] == hs[..i] + hs[i..j];
    assert x in multiset(hs[i..j]) by { assert hs[i..j][0] == x; }
    assert cj > ci;
    if ci > 0 {
      var p := x + "_";
      var si := NatToString(ci);
      var sj := NatToString(cj);
      assert si != sj;
      assert (p + si)[|p|..] == si && (p + sj)[|p|..] == sj;
    }
  }

  /**
   * Header names "X", "X", "X_1" come out as "X", "X_1", "X_1": the renaming
   * does not guarantee unique headers.
   */
  lemma RenamingCollides(x: string, x1: string)
    requires x == "X" && x1 == "X_1"
    ensures Deduplicated([x, x, x1]) == [x, x1, x1]
  {
    var hs := [x, x, x1];
    assert hs[..0] == [] && hs[..1] == [x] && hs[..2] == [x, x];
    assert multiset(hs[..1])[x] == 1;
    assert x1 != x;
    assert multiset(hs[..2])[x1] == 0;
    assert NatToString(1) == "1";
    assert Renamed(hs, 1) == x1;
  }
}
