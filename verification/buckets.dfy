/**
 * The annotation store of 2_FORMATAR_PEDIDO.py: a map from a bucket key
 * `"<ACTION> <DD/MM>"` to the order numbers annotated with that action on
 * that date. An upsert merges numbers into one bucket and evicts them from
 * every other bucket, so that an order is listed under one bucket at most.
 */
module Buckets {
  import opened Wrappers
  import opened Text
  import opened Pedidos
  import Calendar

  /** `f"{action} {date_str}"` */
  function BucketKey(action: string, dateStr: string): (k: string)
    ensures |k| == |action| + 1 + |dateStr| && k[|action|] == ' '
    ensures k[..|action|] == action && k[|action| + 1..] == dateStr
  {
    action + " " + dateStr
  }

  /** `[p for p in xs if p not in drop]` */
  function Without(xs: seq<string>, drop: seq<string>): (r: seq<string>)
    ensures forall p :: p in r <==> p in xs && p !in drop
    ensures forall p :: multiset(r)[p] == if p in drop then 0 else multiset(xs)[p]
  {
    if xs == [] then []
    else
      assert xs == [xs[0]] + xs[1..];
      (if xs[0] in drop then [] else [xs[0]]) + Without(xs[1..], drop)
  }

  /** The target bucket after step 1 of `update_formatted_list`. */
  function Merged(data: map<string, seq<string>>, key: string, newPedidos: seq<string>): (r: seq<string>)
    ensures forall p :: p in r <==> (key in data && p in data[key]) || p in newPedidos
  {
    if key in data then data[key] + Without(newPedidos, data[key]) else newPedidos
  }

  /** Every bucket after steps 1 and 2: the target merged, the others evicted. */
  function Evicted(data: map<string, seq<string>>, key: string, newPedidos: seq<string>): (r: map<string, seq<string>>)
    ensures forall k :: k in r <==> k in data || k == key
    ensures key in r && r[key] == Merged(data, key, newPedidos)
    ensures forall k :: k in r && k != key ==> r[k] == Without(data[k], Merged(data, key, newPedidos))
  {
    var current := Merged(data, key, newPedidos);
    map k | k in data.Keys + {key} :: if k == key then current else Without(data[k], current)
  }

  /** Step 3: `{k: sorted(v) for k, v in current_data.items() if v}` */
  function Cleaned(data: map<string, seq<string>>): (r: map<string, seq<string>>)
    ensures forall k :: k in r <==> k in data && data[k] != []
    ensures forall k :: k in r ==> Sorted(r[k]) && multiset(r[k]) == multiset(data[k])
  {
    map k | k in data && data[k] != [] :: Sort(data[k])
  }

  /** The value `update_formatted_list` returns. */
  function Upserted(data: map<string, seq<string>>, key: string, newPedidos: seq<string>): (r: map<string, seq<string>>)
    ensures AllBucketsValid(r)
  {
    Cleaned(Evicted(data, key, newPedidos))
  }

  /** Every bucket is non-empty and sorted. */
  ghost predicate AllBucketsValid(data: map<string, seq<string>>) {
    forall k :: k in data ==> data[k] != [] && Sorted(data[k])
  }

  /** No order number is listed under two different buckets. */
  ghost predicate Exclusive(data: map<string, seq<string>>) {
    forall k1, k2, p :: k1 in data && k2 in data && p in data[k1] && p in data[k2] ==> k1 == k2
  }

  /**
   * The target bucket keeps what it held and gains exactly the new numbers it
   * did not hold yet; it disappears only when it ends up empty.
   */
  lemma UpsertTarget(data: map<string, seq<string>>, key: string, newPedidos: seq<string>)
    ensures var r := Upserted(data, key, newPedidos);
      (key in r <==> (key in data && data[key] != []) || newPedidos != []) &&
      (key in r ==> forall p :: p in r[key] <==> (key in data && p in data[key]) || p in newPedidos) &&
      (key in r && key in data ==>
        multiset(r[key]) == multiset(data[key]) + multiset(Without(newPedidos, data[key])))
  {
    var e := Evicted(data, key, newPedidos);
    var m := Merged(data, key, newPedidos);
    var r := Upserted(data, key, newPedidos);
    assert r == Cleaned(e);
    assert key in r <==> m != [];
    if key in data {
      var w := Without(newPedidos, data[key]);
      assert m == data[key] + w;
      if data[key] == [] {
        WithoutNothing(newPedidos);
      }
    }
    if key in r {
      assert multiset(r[key]) == multiset(m);
      forall p ensures p in r[key] <==> p in m {
        assert p in r[key] <==> p in multiset(r[key]);
      }
    }
  }

  lemma {:induction false} WithoutNothing(xs: seq<string>)
    ensures Without(xs, []) == xs
  {
    if xs != [] {
      WithoutNothing(xs[1..]);
      assert xs == [xs[0]] + xs[1..];
    }
  }

  /**
   * Every other bucket loses exactly the numbers of the target bucket, and is
   * dropped when nothing is left.
   */
  lemma UpsertOthers(data: map<string, seq<string>>, key: string, newPedidos: seq<string>, k: string)
    requires k != key
    ensures var r := Upserted(data, key, newPedidos);
      var current := Merged(data, key, newPedidos);
      (k in r <==> k in data && exists p :: p in data[k] && p !in current) &&
      (k in r ==> forall p :: p in r[k] <==> p in data[k] && p !in current)
  {
    var e := Evicted(data, key, newPedidos);
    var current := Merged(data, key, newPedidos);
    var r := Upserted(data, key, newPedidos);
    assert r == Cleaned(e);
    if k in data {
      var w := Without(data[k], current);
      assert e[k] == w;
      assert k in r <==> w != [];
      assert w != [] ==> w[0] in data[k] && w[0] !in current;
      if k in r {
        assert multiset(r[k]) == multiset(w);
        forall p ensures p in r[k] <==> p in w {
          assert p in r[k] <==> p in multiset(r[k]);
        }
      }
    }
  }

  lemma EvictedCharacterised(data: map<string, seq<string>>, key: string, newPedidos: seq<string>, r: map<string, seq<string>>)
    requires r.Keys == data.Keys + {key}
    requires r[key] == Merged(data, key, newPedidos)
    requires forall k :: k in r && k != key ==> r[k] == Without(data[k], Merged(data, key, newPedidos))
    ensures r == Evicted(data, key, newPedidos)
  {
  }

  /** After an upsert, no other bucket holds a number of the target bucket. */
  lemma UpsertEvicts(data: map<string, seq<string>>, key: string, newPedidos: seq<string>)
    ensures var r := Upserted(data, key, newPedidos);
      key in r ==> forall k, p :: k in r && k != key && p in r[key] ==> p !in r[k]
  {
    var r := Upserted(data, key, newPedidos);
    var m := Merged(data, key, newPedidos);
    UpsertTarget(data, key, newPedidos);
    forall k, p | k in r && k != key && key in r && p in r[key] ensures p !in r[k] {
      assert p in m;
      UpsertOthers(data, key, newPedidos, k);
    }
  }

  /** "Each order in at most one bucket" is an invariant of the upsert. */
  lemma UpsertKeepsExclusive(data: map<string, seq<string>>, key: string, newPedidos: seq<string>)
    requires Exclusive(data)
    ensures Exclusive(Upserted(data, key, newPedidos))
  {
    var r := Upserted(data, key, newPedidos);
    var m := Merged(data, key, newPedidos);
    UpsertTarget(data, key, newPedidos);
    forall k1, k2, p | k1 in r && k2 in r && p in r[k1] && p in r[k2] ensures k1 == k2 {
      if k1 != key && k2 != key {
        UpsertOthers(data, key, newPedidos, k1);
        UpsertOthers(data, key, newPedidos, k2);
        assert p in data[k1] && p in data[k2];
      } else if k1 != key {
        UpsertOthers(data, key, newPedidos, k1);
      } else if k2 != key {
        UpsertOthers(data, key, newPedidos, k2);
      }
    }
  }

  /** Upserting no numbers into an absent bucket does not create it. */
  lemma UpsertNothingAbsent(data: map<string, seq<string>>, key: string)
    requires key !in data
    ensures key !in Upserted(data, key, [])
  {
    UpsertTarget(data, key, []);
  }

  // ---------------------------------------------------------------------
  // render_formatted_output
  // ---------------------------------------------------------------------

  /** `f"{', '.join(pedidos_list)} - {action_date_str}"` */
  function Segment(key: string, pedidos: seq<string>): string {
    Join(pedidos, ", ") + " - " + key
  }

  /** The loop of `render_formatted_output` over keys in ascending order, skipping empty buckets. */
  function Parts(data: map<string, seq<string>>, keys: seq<string>): (parts: seq<string>)
    requires forall i :: 0 <= i < |keys| ==> keys[i] in data
  {
    if keys == [] then []
    else if data[keys[0]] == [] then Parts(data, keys[1..])
    else [Segment(keys[0], data[keys[0]])] + Parts(data, keys[1..])
  }

  /** `render_formatted_output(data)` */
  function Render(data: map<string, seq<string>>): (out: string)
    ensures data == map[] ==> out == ""
  {
    if data == map[] then ""
    else Join(Parts(data, SortedElements(data.Keys)), " | ")
  }

  /** The keys of the non-empty buckets, in the order of `keys`. */
  function FilledKeys(data: map<string, seq<string>>, keys: seq<string>): (r: seq<string>)
    requires forall i :: 0 <= i < |keys| ==> keys[i] in data
    ensures forall k :: k in r <==> k in keys && data[k] != []
    ensures forall i :: 0 <= i < |r| ==> r[i] in data
  {
    if keys == [] then []
    else
      var rest := FilledKeys(data, keys[1..]);
      assert forall k :: k in keys <==> k == keys[0] || k in keys[1..] by {
        assert keys == [keys[0]] + keys[1..];
      }
      if data[keys[0]] == [] then rest else [keys[0]] + rest
  }

  /** Skipping empty buckets keeps the keys in ascending order. */
  lemma {:induction false} FilledKeysSorted(data: map<string, seq<string>>, keys: seq<string>)
    requires forall i :: 0 <= i < |keys| ==> keys[i] in data
    requires StrictlySorted(keys)
    ensures StrictlySorted(FilledKeys(data, keys))
    decreases |keys|
  {
    if keys != [] {
      var rest := FilledKeys(data, keys[1..]);
      assert StrictlySorted(keys[1..]);
      FilledKeysSorted(data, keys[1..]);
      forall j | 0 <= j < |rest| ensures Less(keys[0], rest[j]) {
        assert rest[j] in rest;
        var i :| 0 <= i < |keys[1..]| && keys[1..][i] == rest[j];
        assert keys[i + 1] == rest[j];
      }
    }
  }

  /**
   * The rendered parts are one segment per non-empty bucket, in ascending
   * order of the bucket keys.
   */
  lemma {:induction false} PartsInKeyOrder(data: map<string, seq<string>>, keys: seq<string>)
    requires forall i :: 0 <= i < |keys| ==> keys[i] in data
    ensures var ks := FilledKeys(data, keys);
      var parts := Parts(data, keys);
      |parts| == |ks| && forall i :: 0 <= i < |ks| ==> parts[i] == Segment(ks[i], data[ks[i]])
    decreases |keys|
  {
    if keys != [] {
      PartsInKeyOrder(data, keys[1..]);
    }
  }

  /**
   * `render_formatted_output`: the empty map renders as "", and otherwise the
   * output is the segments of the non-empty buckets, in strictly ascending key
   * order, joined by " | ".
   */
  lemma RenderOrder(data: map<string, seq<string>>)
    ensures var ks := FilledKeys(data, SortedElements(data.Keys));
      StrictlySorted(ks) && (forall k :: k in ks <==> k in data && data[k] != []) &&
      (data != map[] ==> Render(data) == Join(seq(|ks|, i requires 0 <= i < |ks| => Segment(ks[i], data[ks[i]])), " | "))
  {
    var ks := FilledKeys(data, SortedElements(data.Keys));
    FilledKeysSorted(data, SortedElements(data.Keys));
    PartsInKeyOrder(data, SortedElements(data.Keys));
    var parts := Parts(data, SortedElements(data.Keys));
    assert parts == seq(|ks|, i requires 0 <= i < |ks| => Segment(ks[i], data[ks[i]]));
  }

  // ---------------------------------------------------------------------
  // A worked example
  // ---------------------------------------------------------------------

  lemma SortedOfTwo(xs: seq<string>, a: string, b: string)
    requires Sorted(xs) && multiset(xs) == multiset{a, b} && Less(a, b)
    ensures xs == [a, b]
  {
    assert |xs| == |multiset(xs)| == 2;
    assert xs[0] in multiset(xs) && xs[1] in multiset(xs);
    LessIrreflexive(a);
    LessAsymmetric(a, b);
    assert xs == [xs[0], xs[1]];
    assert multiset(xs) == multiset{xs[0], xs[1]};
  }

  lemma SortedOfOne(xs: seq<string>, a: string)
    requires multiset(xs) == multiset{a}
    ensures xs == [a]
  {
    assert |xs| == |multiset(xs)| == 1;
    assert xs[0] in multiset(xs);
  }

  /**
   * PAGO {1, 2} and then ENTREGUE {2} on the same date: order 2 moves to the
   * ENTREGUE bucket.
   */
  lemma UpsertScenario()
    ensures var pago, entregue := BucketKey("PAGO", "10/05"), BucketKey("ENTREGUE", "10/05");
      var d1 := Upserted(map[], pago, ["1", "2"]);
      var d2 := Upserted(d1, entregue, ["2"]);
      d1.Keys == {pago} && d1[pago] == ["1", "2"] &&
      d2.Keys == {pago, entregue} && d2[pago] == ["1"] && d2[entregue] == ["2"]
  {
    var pago, entregue := BucketKey("PAGO", "10/05"), BucketKey("ENTREGUE", "10/05");
    assert pago != entregue by {
      assert pago[0] == 'P' && entregue[0] == 'E';
    }
    TwoUpserts(pago, entregue);
  }

  /** The same two updates under any two different keys. */
  lemma TwoUpserts(pago: string, entregue: string)
    requires pago != entregue
    ensures var d1 := Upserted(map[], pago, ["1", "2"]);
      var d2 := Upserted(d1, entregue, ["2"]);
      d1.Keys == {pago} && d1[pago] == ["1", "2"] &&
      d2.Keys == {pago, entregue} && d2[pago] == ["1"] && d2[entregue] == ["2"]
  {
    var d1 := Upserted(map[], pago, ["1", "2"]);
    FirstUpsert(pago, d1);
    SecondUpsert(pago, entregue, d1, Upserted(d1, entregue, ["2"]));
  }

  lemma FirstUpsert(pago: string, d1: map<string, seq<string>>)
    requires d1 == Upserted(map[], pago, ["1", "2"])
    ensures d1.Keys == {pago} && d1[pago] == ["1", "2"]
  {
    assert Less("1", "2");
    assert Merged(map[], pago, ["1", "2"]) == ["1", "2"];
    assert d1.Keys == {pago};
    SortedOfTwo(d1[pago], "1", "2");
  }

  lemma SecondUpsert(pago: string, entregue: string, d1: map<string, seq<string>>, d2: map<string, seq<string>>)
    requires pago != entregue
    requires d1.Keys == {pago} && d1[pago] == ["1", "2"]
    requires d2 == Upserted(d1, entregue, ["2"])
    ensures d2.Keys == {pago, entregue} && d2[pago] == ["1"] && d2[entregue] == ["2"]
  {
    SecondEvicted(pago, entregue, d1);
    CleanedSingletons(Evicted(d1, entregue, ["2"]), pago, entregue, "1", "2");
  }

  lemma SecondEvicted(pago: string, entregue: string, d1: map<string, seq<string>>)
    requires pago != entregue
    requires d1.Keys == {pago} && d1[pago] == ["1", "2"]
    ensures var e := Evicted(d1, entregue, ["2"]);
      e.Keys == {pago, entregue} && e[pago] == ["1"] && e[entregue] == ["2"]
  {
    var m := Merged(d1, entregue, ["2"]);
    assert m == ["2"] by {
      assert entregue !in d1;
    }
    var e := Evicted(d1, entregue, ["2"]);
    assert e.Keys == {pago, entregue} by {
      assert forall k :: k in e <==> k == pago || k == entregue;
    }
    assert e[pago] == ["1"] by {
      assert e[pago] == Without(d1[pago], m);
      WithoutOfTwo();
    }
  }

  lemma WithoutOfTwo()
    ensures Without(["1", "2"], ["2"]) == ["1"]
  {
    assert ["1", "2"][1..] == ["2"];
    assert Without(["2"], ["2"]) == [];
  }

  lemma CleanedSingletons(e: map<string, seq<string>>, a: string, b: string, x: string, y: string)
    requires e.Keys == {a, b} && e[a] == [x] && e[b] == [y]
    ensures var d := Cleaned(e);
      d.Keys == {a, b} && d[a] == [x] && d[b] == [y]
  {
    var d := Cleaned(e);
    assert multiset(d[a]) == multiset{x};
    assert multiset(d[b]) == multiset{y};
    SortedOfOne(d[a], x);
    SortedOfOne(d[b], y);
  }

  /** The buckets of `UpsertScenario` render in key order: ENTREGUE before PAGO. */
  lemma RenderScenario()
    ensures var pago, entregue := BucketKey("PAGO", "10/05"), BucketKey("ENTREGUE", "10/05");
      Render(Upserted(Upserted(map[], pago, ["1", "2"]), entregue, ["2"])) ==
        "2 - " + entregue + " | " + "1 - " + pago
  {
    var pago, entregue := BucketKey("PAGO", "10/05"), BucketKey("ENTREGUE", "10/05");
    UpsertScenario();
    assert Less(entregue, pago) by {
      assert entregue[0] == 'E' && pago[0] == 'P';
    }
    RenderOfTwo(pago, entregue, Upserted(Upserted(map[], pago, ["1", "2"]), entregue, ["2"]));
  }

  /** Two one-number buckets render in key order, the lesser key first. */
  lemma RenderOfTwo(pago: string, entregue: string, d2: map<string, seq<string>>)
    requires Less(entregue, pago)
    requires d2.Keys == {pago, entregue} && d2[pago] == ["1"] && d2[entregue] == ["2"]
    ensures Render(d2) == "2 - " + entregue + " | " + "1 - " + pago
  {
    RenderTwoKeys(d2, entregue, pago);
    var s1 := Segment(entregue, d2[entregue]);
    var s2 := Segment(pago, d2[pago]);
    assert s1 == "2 - " + entregue by {
      SegmentOfOne(entregue, "2");
      assert "2" + " - " == "2 - ";
    }
    assert s2 == "1 - " + pago by {
      SegmentOfOne(pago, "1");
      assert "1" + " - " == "1 - ";
    }
    assert s1 + " | " + s2 == "2 - " + entregue + " | " + "1 - " + pago;
  }

  /** Two non-empty buckets render as the lesser key's part, then the greater key's. */
  lemma RenderTwoKeys(d: map<string, seq<string>>, a: string, b: string)
    requires Less(a, b) && d.Keys == {a, b} && d[a] != [] && d[b] != []
    ensures Render(d) == Segment(a, d[a]) + " | " + Segment(b, d[b])
  {
    var s1, s2 := Segment(a, d[a]), Segment(b, d[b]);
    var ks := SortedElements(d.Keys);
    assert ks == [a, b] by {
      LessIrreflexive(a);
      StrictlySortedUnique(ks, [a, b]);
    }
    var parts := Parts(d, ks);
    assert parts == [s1, s2] by {
      assert ks[1..] == [b] && ks[1..][1..] == [];
      assert Parts(d, ks[1..][1..]) == [];
      assert Parts(d, ks[1..]) == [s2] + [];
    }
    assert d != map[] by { assert a in d; }
    assert parts[1..] == [s2];
    assert Join(parts, " | ") == s1 + " | " + Join([s2], " | ");
  }

  lemma SegmentOfOne(key: string, x: string)
    ensures Segment(key, [x]) == x + " - " + key
  {
    assert Join([x], ", ") == x;
  }

  // ---------------------------------------------------------------------
  // The page's state
  // ---------------------------------------------------------------------

  const NO_ORDERS_ERROR := "ERRO: Nenhum pedido válido encontrado para processar."
  const CLEARED := "Dados de formatação limpos com sucesso!"

  function ProcessedMessage(action: string): string {
    "✅ Pedidos processados como '" + action + "'. O resultado está pronto na caixa abaixo."
  }

  /** The `formatted_data` and `feedback_message` entries of the session state. */
  class Formatter {
    var formattedData: map<string, seq<string>>
    var feedback: Option<string>

    /** Every stored bucket is non-empty and sorted, and no number is in two buckets. */
    ghost predicate Valid()
      reads this
    {
      AllBucketsValid(formattedData) && Exclusive(formattedData)
    }

    /** `initialize_state` on a fresh session. */
    constructor()
      ensures Valid()
      ensures formattedData == map[] && feedback == None
    {
      formattedData := map[];
      feedback := None;
    }

    /** `update_formatted_list`, storing its result as the new `formatted_data`. */
    method UpdateFormattedList(action: string, dateStr: string, newPedidos: seq<string>)
      requires Valid()
      modifies this
      ensures Valid()
      ensures formattedData == Upserted(old(formattedData), BucketKey(action, dateStr), newPedidos)
      ensures feedback == old(feedback)
    {
      var key := BucketKey(action, dateStr);
      var data := formattedData;
      // 1. merge into the target bucket
      if key in data {
        var existing := data[key];
        var toAdd := Without(newPedidos, existing);
        data := data[key := existing + toAdd];
      } else {
        data := data[key := newPedidos];
      }
      assert data == old(formattedData)[key := Merged(old(formattedData), key, newPedidos)];
      // 2. evict the target's numbers from every other bucket
      data := EvictFromOthers(data, key);
      EvictedCharacterised(old(formattedData), key, newPedidos, data);
      // 3. drop empty buckets and sort
      formattedData := Cleaned(data);
      UpsertKeepsExclusive(old(formattedData), key, newPedidos);
    }

    /** The loop of step 2: every bucket other than `key` loses the numbers of `key`. */
    static method EvictFromOthers(data: map<string, seq<string>>, key: string) returns (r: map<string, seq<string>>)
      requires key in data
      ensures r.Keys == data.Keys && r[key] == data[key]
      ensures forall k :: k in r && k != key ==> r[k] == Without(data[k], data[key])
    {
      r := data;
      var current := data[key];
      var todo := data.Keys - {key};
      while todo != {}
        invariant key !in todo
        invariant r.Keys == data.Keys && r[key] == current
        invariant forall k :: k in r && k != key ==>
          r[k] == if k in todo then data[k] else Without(data[k], current)
        decreases todo
      {
        var other :| other in todo;
        r := r[other := Without(r[other], current)];
        todo := todo - {other};
      }
    }

    /** `handle_update(action)` with the text box content and the picked date. */
    method HandleUpdate(action: string, rawText: string, date: int)
      requires Valid()
      modifies this
      ensures Valid()
      ensures var parsed := ParsePedidos(rawText);
        if parsed == [] then
          formattedData == old(formattedData) && feedback == Some(NO_ORDERS_ERROR)
        else
          formattedData == Upserted(old(formattedData), BucketKey(action, Calendar.DayMonth(date, '/')), parsed) &&
          feedback == Some(ProcessedMessage(action))
    {
      var dateStr := Calendar.DayMonth(date, '/');
      var parsed := ParsePedidos(rawText);
      if parsed == [] {
        feedback := Some(NO_ORDERS_ERROR);
        return;
      }
      UpdateFormattedList(action, dateStr, parsed);
      feedback := Some(ProcessedMessage(action));
    }

    /** `clear_all_data` */
    method ClearAllData()
      modifies this
      ensures Valid()
      ensures formattedData == map[] && feedback == Some(CLEARED)
    {
      formattedData := map[];
      feedback := Some(CLEARED);
    }
  }
}
