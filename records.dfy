/** The pieces of pygascard/device.py that turn a reply into a record and a
    request into table positions: the token conversion loop, `dict(zip(...))`
    and the nested loops that look requested names up in the code table. */
module Records {

  /** A field of a decoded record: a token `float()` accepts, or one left as
      text. The token's text is kept in both cases. */
  datatype Value = Num(text: string) | Str(text: string)

  type Record = map<string, Value>

  function Min(a: nat, b: nat): nat {
    if a <= b then a else b
  }

  /** What the conversion loop leaves in place of one token. */
  function Converted(token: string, isNum: string -> bool): Value {
    if isNum(token) then Num(token) else Str(token)
  }

  /** The decode loop: each token is overwritten in place by its number when
      `float()` accepts it, and left as text otherwise. */
  method ConvertTokens(tokens: seq<string>, isNum: string -> bool) returns (vals: seq<Value>)
    ensures |vals| == |tokens|
    ensures forall i | 0 <= i < |tokens| ::
      vals[i].text == tokens[i] && (vals[i].Num? <==> isNum(tokens[i]))
  {
    var df := new Value[|tokens|](i requires 0 <= i < |tokens| => Str(tokens[i]));
    for index := 0 to |tokens|
      invariant forall j | 0 <= j < index :: df[j] == Converted(tokens[j], isNum)
      invariant forall j | index <= j < |tokens| :: df[j] == Str(tokens[j])
    {
      if isNum(tokens[index]) {
        df[index] := Num(tokens[index]);
      }
    }
    vals := df[..];
  }

  /** `dict(zip(labels, vals))` over the first `n` pairs: later pairs win. */
  function ZipPrefix<V>(labels: seq<string>, vals: seq<V>, n: nat): (r: map<string, V>)
    requires n <= |labels| && n <= |vals|
    ensures r.Keys == set i | 0 <= i < n :: labels[i]
  {
    if n == 0 then map[] else ZipPrefix(labels, vals, n - 1)[labels[n - 1] := vals[n - 1]]
  }

  /** `dict(zip(labels, vals))`: `zip` stops at the shorter of the two. */
  function Zip<V>(labels: seq<string>, vals: seq<V>): map<string, V> {
    ZipPrefix(labels, vals, Min(|labels|, |vals|))
  }

  lemma {:induction false} ZipPrefixAt<V>(labels: seq<string>, vals: seq<V>, n: nat, i: nat)
    requires i < n <= |labels| && n <= |vals|
    requires forall j | i < j < n :: labels[j] != labels[i]
    ensures labels[i] in ZipPrefix(labels, vals, n) && ZipPrefix(labels, vals, n)[labels[i]] == vals[i]
    decreases n
  {
    if i < n - 1 {
      ZipPrefixAt(labels, vals, n - 1, i);
    }
  }

  /** The record holds exactly the first min(|labels|, |vals|) labels, and a
      label not repeated later in that range is bound to the value at its
      own position. */
  lemma ZipAt<V>(labels: seq<string>, vals: seq<V>, i: nat)
    requires i < |labels| && i < |vals|
    requires forall j | i < j < Min(|labels|, |vals|) :: labels[j] != labels[i]
    ensures Zip(labels, vals).Keys == set j | 0 <= j < Min(|labels|, |vals|) :: labels[j]
    ensures Zip(labels, vals)[labels[i]] == vals[i]
  {
    ZipPrefixAt(labels, vals, Min(|labels|, |vals|), i);
  }

  // ------------------------------------------------------------ code table

  /** One entry of the `values` table of codes.json: a mode key, its ordered
      label list (`value[0]`) and its wire codes (`value[1]`). */
  datatype ModeEntry = ModeEntry(mode: string, labels: seq<string>, codes: seq<string>)

  /** The `values` table, in its file order. */
  type CodeTable = seq<ModeEntry>

  /** `values[mode][0]`, from the first entry with that key (none: no labels). */
  function LabelsOf(table: CodeTable, mode: string): seq<string> {
    if table == [] then []
    else if table[0].mode == mode then table[0].labels
    else LabelsOf(table[1..], mode)
  }

  /** A match found by the nested loops: request number `req` equals label
      number `index` of table entry number `entry`. */
  datatype Pos = Pos(req: nat, entry: nat, index: nat)

  predicate IsHit(names: seq<string>, table: CodeTable, p: Pos) {
    && p.req < |names|
    && p.entry < |table|
    && p.index < |table[p.entry].labels|
    && table[p.entry].labels[p.index] == names[p.req]
  }

  /** The iteration order of `for val in vals: for key in values: for idx in labels`. */
  predicate Before(p: Pos, q: Pos) {
    || p.req < q.req
    || (p.req == q.req && p.entry < q.entry)
    || (p.req == q.req && p.entry == q.entry && p.index < q.index)
  }

  predicate InLoopOrder(ps: seq<Pos>) {
    forall i, j | 0 <= i < j < |ps| :: Before(ps[i], ps[j])
  }

  /** Matches of request `r` against the first `k` labels of entry `e`. */
  function LabelHits(name: string, table: CodeTable, r: nat, e: nat, k: nat): seq<Pos>
    requires e < |table| && k <= |table[e].labels|
  {
    if k == 0 then []
    else
      var here := if table[e].labels[k - 1] == name then [Pos(r, e, k - 1)] else [];
      LabelHits(name, table, r, e, k - 1) + here
  }

  /** Matches of request `r` against the first `e` table entries. */
  function EntryHits(name: string, table: CodeTable, r: nat, e: nat): seq<Pos>
    requires e <= |table|
  {
    if e == 0 then []
    else EntryHits(name, table, r, e - 1) + LabelHits(name, table, r, e - 1, |table[e - 1].labels|)
  }

  /** Matches of the first `n` requested names, in loop order. */
  function Hits(names: seq<string>, table: CodeTable, n: nat): seq<Pos>
    requires n <= |names|
  {
    if n == 0 then []
    else Hits(names, table, n - 1) + EntryHits(names[n - 1], table, n - 1, |table|)
  }

  /** The nested loops of `get` and `set` that compare every requested name
      with every label of every table entry. */
  method CollectHits(names: seq<string>, table: CodeTable) returns (hits: seq<Pos>)
    ensures hits == Hits(names, table, |names|)
  {
    hits := [];
    for i := 0 to |names|
      invariant hits == Hits(names, table, i)
    {
      for e := 0 to |table|
        invariant hits == Hits(names, table, i) + EntryHits(names[i], table, i, e)
      {
        for k := 0 to |table[e].labels|
          invariant hits == Hits(names, table, i) + EntryHits(names[i], table, i, e)
            + LabelHits(names[i], table, i, e, k)
        {
          if names[i] == table[e].labels[k] {
            hits := hits + [Pos(i, e, k)];
          }
        }
      }
    }
  }

  lemma {:induction false} LabelHitsExactly(name: string, table: CodeTable, r: nat, e: nat, k: nat)
    requires e < |table| && k <= |table[e].labels|
    ensures forall p :: p in LabelHits(name, table, r, e, k) <==>
      p.req == r && p.entry == e && p.index < k && table[e].labels[p.index] == name
    ensures InLoopOrder(LabelHits(name, table, r, e, k))
    decreases k
  {
    if k > 0 {
      LabelHitsExactly(name, table, r, e, k - 1);
    }
  }

  lemma {:induction false} EntryHitsExactly(name: string, table: CodeTable, r: nat, e: nat)
    requires e <= |table|
    ensures forall p :: p in EntryHits(name, table, r, e) <==>
      p.req == r && p.entry < e && p.index < |table[p.entry].labels| && table[p.entry].labels[p.index] == name
    ensures InLoopOrder(EntryHits(name, table, r, e))
    decreases e
  {
    if e > 0 {
      EntryHitsExactly(name, table, r, e - 1);
      LabelHitsExactly(name, table, r, e - 1, |table[e - 1].labels|);
      var a := EntryHits(name, table, r, e - 1);
      var b := LabelHits(name, table, r, e - 1, |table[e - 1].labels|);
      OrderedAppend(a, b);
    }
  }

  lemma OrderedAppend(a: seq<Pos>, b: seq<Pos>)
    requires InLoopOrder(a) && InLoopOrder(b)
    requires forall x, y | x in a && y in b :: Before(x, y)
    ensures InLoopOrder(a + b)
  {
    forall i, j | 0 <= i < j < |a + b| ensures Before((a + b)[i], (a + b)[j]) {
      if j < |a| {
      } else if i >= |a| {
        assert (a + b)[i] == b[i - |a|] && (a + b)[j] == b[j - |a|];
      } else {
        assert (a + b)[i] in a && (a + b)[j] in b;
      }
    }
  }

  /** The matches are exactly the (request, entry, label) positions whose
      label equals the requested name, listed in the loops' order; names that
      match no label contribute nothing. */
  lemma {:induction false} HitsExactly(names: seq<string>, table: CodeTable, n: nat)
    requires n <= |names|
    ensures forall p :: p in Hits(names, table, n) <==> IsHit(names, table, p) && p.req < n
    ensures InLoopOrder(Hits(names, table, n))
    decreases n
  {
    if n > 0 {
      var a := Hits(names, table, n - 1);
      var b := EntryHits(names[n - 1], table, n - 1, |table|);
      HitsExactly(names, table, n - 1);
      EntryHitsExactly(names[n - 1], table, n - 1, |table|);
      assert forall x | x in a :: x.req < n - 1;
      assert forall y | y in b :: y.req == n - 1;
      OrderedAppend(a, b);
      assert Hits(names, table, n) == a + b;
    }
  }

  /** Hits of the first `k` requested names look at those names only. */
  lemma {:induction false} HitsPrefix(a: seq<string>, b: seq<string>, table: CodeTable, k: nat)
    requires k <= |a|
    ensures Hits(a + b, table, k) == Hits(a, table, k)
    decreases k
  {
    if k > 0 {
      HitsPrefix(a, b, table, k - 1);
      var name := a[k - 1];
      assert (a + b)[k - 1] == name;
      assert Hits(a + b, table, k) == Hits(a, table, k - 1) + EntryHits(name, table, k - 1, |table|);
    }
  }

  /** A name that no entry lists matches nothing. */
  lemma {:induction false} EntryHitsUnknown(name: string, table: CodeTable, r: nat, e: nat)
    requires e <= |table| && !Known(table, name)
    ensures EntryHits(name, table, r, e) == []
    decreases e
  {
    if e > 0 {
      EntryHitsUnknown(name, table, r, e - 1);
      LabelHitsAbsent(name, table, r, e - 1, |table[e - 1].labels|);
    }
  }

  lemma {:induction false} LabelHitsAbsent(name: string, table: CodeTable, r: nat, e: nat, k: nat)
    requires e < |table| && k <= |table[e].labels| && name !in table[e].labels
    ensures LabelHits(name, table, r, e, k) == []
    decreases k
  {
    if k > 0 {
      LabelHitsAbsent(name, table, r, e, k - 1);
      assert table[e].labels[k - 1] in table[e].labels;
    }
  }

  /** Every match found is for one of the first `n` requests. */
  lemma HitsBelow(names: seq<string>, table: CodeTable, n: nat)
    requires n <= |names|
    ensures forall i | 0 <= i < |Hits(names, table, n)| :: Hits(names, table, n)[i].req < n
  {
    HitsExactly(names, table, n);
    forall i | 0 <= i < |Hits(names, table, n)| ensures Hits(names, table, n)[i].req < n {
      assert Hits(names, table, n)[i] in Hits(names, table, n);
    }
  }

  /** Every match the search finds is a match. */
  lemma HitsAreHits(names: seq<string>, table: CodeTable)
    ensures forall i | 0 <= i < |Hits(names, table, |names|)| :: IsHit(names, table, Hits(names, table, |names|)[i])
  {
    var hits := Hits(names, table, |names|);
    HitsExactly(names, table, |names|);
    forall i | 0 <= i < |hits| ensures IsHit(names, table, hits[i]) {
      assert hits[i] in hits;
    }
  }

  /** Every match is found, at some position of the search's list. */
  lemma HitIndex(names: seq<string>, table: CodeTable, p: Pos) returns (i: nat)
    requires IsHit(names, table, p)
    ensures i < |Hits(names, table, |names|)| && Hits(names, table, |names|)[i] == p
  {
    HitsExactly(names, table, |names|);
    i :| 0 <= i < |Hits(names, table, |names|)| && Hits(names, table, |names|)[i] == p;
  }

  /** A requested name that some table entry lists. */
  predicate Known(table: CodeTable, name: string) {
    exists e | 0 <= e < |table| :: name in table[e].labels
  }
}
