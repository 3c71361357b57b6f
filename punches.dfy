/** The punch rows the attendance queries return, the string keys the
    aggregators group them under, and the order-preserving filters they
    apply (`filter` on a terminal alias, the rows pushed under one key). */
module Punches {
  import opened Wrappers
  import opened Clock
  import opened Iso

  /** One row of the punch query: the employee code, the employee's first
      name (NULL when no employee row joins), the punch instant and the
      alias of the terminal it was made on. */
  datatype Punch = Punch(empCode: string, firstName: Option<string>, time: Instant, alias: string)

  const IN_DEVICE: string := "In Device"
  const OUT_DEVICE: string := "Out Device"

  /** `first_name || "-"`: a NULL or empty name shows as "-". */
  function DisplayName(first: Option<string>): (r: string)
    ensures r != []
    ensures first.Some? && first.value != [] ==> r == first.value
    ensures first.None? || first.value == [] ==> r == "-"
  {
    if first.Some? && first.value != [] then first.value else "-"
  }

  /** The three ways the aggregators key their dictionaries: by employee
      code, by `${emp_code}_${date}`, and by the ISO date. */
  datatype KeyKind = ByCode | ByCodeAndDate | ByDate

  function KeyOf(kind: KeyKind, p: Punch): string {
    match kind
    case ByCode => p.empCode
    case ByCodeAndDate => p.empCode + "_" + IsoDatePart(p.time)
    case ByDate => IsoDatePart(p.time)
  }

  /** The keys as the aggregators build them from the row: the code, the
      code, '_' and `isoString.substring(0, 10)`, or that date text alone. */
  lemma KeyOfIsoText(kind: KeyKind, p: Punch)
    ensures kind == ByCode ==> KeyOf(kind, p) == p.empCode
    ensures kind == ByCodeAndDate ==> KeyOf(kind, p) == p.empCode + "_" + IsoString(p.time)[..10]
    ensures kind == ByDate ==> KeyOf(kind, p) == IsoString(p.time)[..10]
    ensures kind != ByCode ==> KeyOf(ByDate, p) == DateText(DateOf(p.time))
  {
    IsoDatePartIsPrefix(p.time);
  }

  /** `${code}_${date}` with a fixed-length date part determines the code
      and the date. */
  lemma KeyPartsInjective(c: string, d: string, c2: string, d2: string)
    requires |d| == |d2|
    ensures c + "_" + d == c2 + "_" + d2 <==> c == c2 && d == d2
  {
    var k, k2 := c + "_" + d, c2 + "_" + d2;
    if k == k2 {
      assert |c| == |c2|;
      assert k[..|c|] == c && k2[..|c|] == c2;
      assert k[|c| + 1..] == d && k2[|c| + 1..] == d2;
    }
  }

  /** The composite key tells employee and date apart: the date part has a
      fixed length, so no code ending in "_..." can pose as another. */
  lemma CompositeKeyInjective(p: Punch, q: Punch)
    ensures KeyOf(ByCodeAndDate, p) == KeyOf(ByCodeAndDate, q)
            <==> p.empCode == q.empCode && DateOf(p.time) == DateOf(q.time)
  {
    DateTextOrder(DateOf(p.time), DateOf(q.time));
    KeyPartsInjective(p.empCode, IsoDatePart(p.time), q.empCode, IsoDatePart(q.time));
  }

  /** Some row has key `k`. */
  predicate Seen(rows: seq<Punch>, kind: KeyKind, k: string) {
    exists p :: p in rows && KeyOf(kind, p) == k
  }

  /** Some row is a punch of employee `c` on date text `d`. */
  predicate PunchedOn(rows: seq<Punch>, c: string, d: string) {
    exists p :: p in rows && p.empCode == c && IsoDatePart(p.time) == d
  }

  /** The keys of the rows, each once, in the order a JavaScript object
      enumerates keys it was given one by one (first insertion first). */
  function Keys(rows: seq<Punch>, kind: KeyKind): (ks: seq<string>)
    ensures forall k :: k in ks <==> Seen(rows, kind, k)
    ensures forall i, j :: 0 <= i < j < |ks| ==> ks[i] != ks[j]
    ensures |ks| <= |rows|
  {
    if rows == [] then []
    else
      var init, r := rows[..|rows| - 1], rows[|rows| - 1];
      assert rows == init + [r];
      var ks := Keys(init, kind);
      if KeyOf(kind, r) in ks then ks else ks + [KeyOf(kind, r)]
  }

  /** The filters the engine applies to an array of punches. */
  datatype Filter =
    | KeyIs(kind: KeyKind, key: string)
    | AliasIs(alias: string)
    | KeyAndAlias(kind: KeyKind, key: string, alias: string)

  predicate Matches(f: Filter, p: Punch) {
    match f
    case KeyIs(kind, k) => KeyOf(kind, p) == k
    case AliasIs(a) => p.alias == a
    case KeyAndAlias(kind, k, a) => KeyOf(kind, p) == k && p.alias == a
  }

  /** The rows that pass a filter, in their input order: what `filter`
      returns, and what a loop pushing each row under its key collects
      under one key. */
  function Select(rows: seq<Punch>, f: Filter): (ps: seq<Punch>)
    ensures forall p :: p in ps <==> p in rows && Matches(f, p)
    ensures |ps| <= |rows|
  {
    if rows == [] then []
    else
      var init, r := rows[..|rows| - 1], rows[|rows| - 1];
      assert rows == init + [r];
      Select(init, f) + (if Matches(f, r) then [r] else [])
  }

  /** `idx` lists, in ascending order, the positions in `rows` of the rows
      `filter` keeps, and of no others. */
  ghost predicate KeptAt(rows: seq<Punch>, f: Filter, idx: seq<nat>) {
    && |idx| == |Select(rows, f)|
    && (forall k :: 0 <= k < |idx| ==> idx[k] < |rows| && rows[idx[k]] == Select(rows, f)[k])
    && (forall k, l :: 0 <= k < l < |idx| ==> idx[k] < idx[l])
    && (forall j :: 0 <= j < |rows| && Matches(f, rows[j]) ==> j in idx)
  }

  /** Where the rows `filter` keeps stand in its input: strictly ascending
      positions, one for every passing row and for no other, so the kept
      rows are the passing rows in input order, each once. */
  lemma {:induction false} SelectIndices(rows: seq<Punch>, f: Filter) returns (idx: seq<nat>)
    ensures |idx| == |Select(rows, f)|
    ensures forall k :: 0 <= k < |idx| ==> idx[k] < |rows| && rows[idx[k]] == Select(rows, f)[k]
    ensures forall k, l :: 0 <= k < l < |idx| ==> idx[k] < idx[l]
    ensures forall j :: 0 <= j < |rows| && Matches(f, rows[j]) ==> j in idx
    decreases |rows|
  {
    if rows == [] {
      return [];
    }
    var init, r := rows[..|rows| - 1], rows[|rows| - 1];
    assert rows == init + [r];
    var prev := SelectIndices(init, f);
    idx := KeptAtSnoc(init, r, f, prev);
  }

  lemma KeptAtSnoc(init: seq<Punch>, r: Punch, f: Filter, prev: seq<nat>) returns (idx: seq<nat>)
    requires KeptAt(init, f, prev)
    ensures KeptAt(init + [r], f, idx)
  {
    SelectSnoc(init, r, f);
    idx := prev + (if Matches(f, r) then [|init|] else []);
    KeptRowsSnoc(init, r, f, prev, idx);
    AscendingSnoc(prev, |init|, Matches(f, r), idx);
    KeptCoverSnoc(init, r, f, prev, idx);
  }

  lemma AscendingSnoc(prev: seq<nat>, n: nat, add: bool, idx: seq<nat>)
    requires forall k :: 0 <= k < |prev| ==> prev[k] < n
    requires forall k, l :: 0 <= k < l < |prev| ==> prev[k] < prev[l]
    requires idx == prev + (if add then [n] else [])
    ensures forall k, l :: 0 <= k < l < |idx| ==> idx[k] < idx[l]
  {
  }

  lemma KeptCoverSnoc(init: seq<Punch>, r: Punch, f: Filter, prev: seq<nat>, idx: seq<nat>)
    requires forall j :: 0 <= j < |init| && Matches(f, init[j]) ==> j in prev
    requires idx == prev + (if Matches(f, r) then [|init|] else [])
    ensures forall j :: 0 <= j < |init + [r]| && Matches(f, (init + [r])[j]) ==> j in idx
  {
    var rows := init + [r];
    forall j | 0 <= j < |rows| && Matches(f, rows[j])
      ensures j in idx
    {
      if j < |init| {
        assert init[j] == rows[j];
      }
    }
  }

  lemma KeptRowsSnoc(init: seq<Punch>, r: Punch, f: Filter, prev: seq<nat>, idx: seq<nat>)
    requires |prev| == |Select(init, f)|
    requires forall k :: 0 <= k < |prev| ==> prev[k] < |init| && init[prev[k]] == Select(init, f)[k]
    requires Select(init + [r], f) == Select(init, f) + (if Matches(f, r) then [r] else [])
    requires idx == prev + (if Matches(f, r) then [|init|] else [])
    ensures |idx| == |Select(init + [r], f)|
    ensures forall k :: 0 <= k < |idx| ==> idx[k] < |init + [r]| && (init + [r])[idx[k]] == Select(init + [r], f)[k]
  {
    var rows, sel := init + [r], Select(init, f);
    forall k | 0 <= k < |idx|
      ensures idx[k] < |rows| && rows[idx[k]] == Select(rows, f)[k]
    {
      if k < |prev| {
        assert idx[k] == prev[k] && Select(rows, f)[k] == sel[k];
        assert rows[prev[k]] == init[prev[k]];
      }
    }
  }

  lemma SelectSnoc(rows: seq<Punch>, r: Punch, f: Filter)
    ensures Select(rows + [r], f) == Select(rows, f) + (if Matches(f, r) then [r] else [])
  {
    assert (rows + [r])[..|rows|] == rows;
  }

  lemma KeysSnoc(rows: seq<Punch>, r: Punch, kind: KeyKind)
    ensures Keys(rows + [r], kind)
            == if KeyOf(kind, r) in Keys(rows, kind) then Keys(rows, kind)
               else Keys(rows, kind) + [KeyOf(kind, r)]
  {
    assert (rows + [r])[..|rows|] == rows;
  }

  /** Filtering by alias the rows gathered under a key is filtering the
      input by both at once. */
  lemma {:induction false} SelectTwice(rows: seq<Punch>, kind: KeyKind, k: string, a: string)
    ensures Select(Select(rows, KeyIs(kind, k)), AliasIs(a)) == Select(rows, KeyAndAlias(kind, k, a))
    decreases |rows|
  {
    if rows != [] {
      var init, r := rows[..|rows| - 1], rows[|rows| - 1];
      assert rows == init + [r];
      SelectTwice(init, kind, k, a);
      SelectSnoc(init, r, KeyIs(kind, k));
      SelectSnoc(init, r, KeyAndAlias(kind, k, a));
      if KeyOf(kind, r) == k {
        SelectSnoc(Select(init, KeyIs(kind, k)), r, AliasIs(a));
        assert Select(rows, KeyIs(kind, k)) == Select(init, KeyIs(kind, k)) + [r];
        assert Matches(AliasIs(a), r) <==> Matches(KeyAndAlias(kind, k, a), r);
      } else {
        assert Select(rows, KeyIs(kind, k)) == Select(init, KeyIs(kind, k));
        assert !Matches(KeyAndAlias(kind, k, a), r);
      }
    }
  }

  /** `ps[0]` and `ps[ps.length - 1]`, which are undefined on an empty array. */
  function Head(ps: seq<Punch>): Option<Punch> {
    if ps == [] then None else Some(ps[0])
  }

  function Last(ps: seq<Punch>): Option<Punch> {
    if ps == [] then None else Some(ps[|ps| - 1])
  }

  /** A filter passes nothing exactly when no row passes it. */
  lemma SelectEmpty(rows: seq<Punch>, f: Filter)
    ensures Select(rows, f) == [] <==> forall p :: p in rows ==> !Matches(f, p)
  {
    if Select(rows, f) != [] {
      assert Select(rows, f)[0] in Select(rows, f);
    }
  }

  /** The head of a filtered array is the first row in input order that
      passes the filter. */
  lemma FirstSelected(rows: seq<Punch>, f: Filter)
    ensures Head(Select(rows, f)).Some? ==>
              exists j :: 0 <= j < |rows| && rows[j] == Head(Select(rows, f)).value && Matches(f, rows[j])
                          && forall i :: 0 <= i < j ==> !Matches(f, rows[i])
  {
    if Select(rows, f) != [] {
      var j := FirstSelectedIndex(rows, f);
      assert rows[j] == Head(Select(rows, f)).value;
    }
  }

  lemma {:induction false} FirstSelectedIndex(rows: seq<Punch>, f: Filter) returns (j: nat)
    requires Select(rows, f) != []
    ensures j < |rows| && rows[j] == Select(rows, f)[0] && Matches(f, rows[j])
    ensures forall i :: 0 <= i < j ==> !Matches(f, rows[i])
    decreases |rows|
  {
    var init, r := rows[..|rows| - 1], rows[|rows| - 1];
    assert rows == init + [r];
    SelectSnoc(init, r, f);
    if Select(init, f) != [] {
      j := FirstSelectedIndex(init, f);
      assert Select(rows, f)[0] == Select(init, f)[0];
      assert rows[j] == init[j];
      forall i | 0 <= i < j ensures !Matches(f, rows[i]) {
        assert rows[i] == init[i];
      }
    } else {
      j := |init|;
      assert Select(rows, f) == [r];
      forall i | 0 <= i < j ensures !Matches(f, rows[i]) {
        assert rows[i] == init[i] && init[i] in init;
      }
    }
  }

  /** The last element of a filtered array is the last row in input order
      that passes the filter. */
  lemma LastSelected(rows: seq<Punch>, f: Filter)
    ensures Last(Select(rows, f)).Some? ==>
              exists j :: 0 <= j < |rows| && rows[j] == Last(Select(rows, f)).value && Matches(f, rows[j])
                          && forall i :: j < i < |rows| ==> !Matches(f, rows[i])
  {
    if Select(rows, f) != [] {
      var j := LastSelectedIndex(rows, f);
      assert rows[j] == Last(Select(rows, f)).value;
    }
  }

  lemma {:induction false} LastSelectedIndex(rows: seq<Punch>, f: Filter) returns (j: nat)
    requires Select(rows, f) != []
    ensures j < |rows| && rows[j] == Select(rows, f)[|Select(rows, f)| - 1] && Matches(f, rows[j])
    ensures forall i :: j < i < |rows| ==> !Matches(f, rows[i])
    decreases |rows|
  {
    var init, r := rows[..|rows| - 1], rows[|rows| - 1];
    assert rows == init + [r];
    SelectSnoc(init, r, f);
    if Matches(f, r) {
      j := |init|;
    } else {
      j := LastSelectedIndex(init, f);
      assert Select(rows, f) == Select(init, f);
      assert rows[j] == init[j];
      forall i | j < i < |rows| ensures !Matches(f, rows[i]) {
        if i < |init| {
          assert rows[i] == init[i];
        }
      }
    }
  }

  /** The first row passing a filter, in input order. */
  function FirstMatch(rows: seq<Punch>, f: Filter): (r: Option<Punch>)
    ensures r.None? <==> forall p :: p in rows ==> !Matches(f, p)
    ensures r.Some? ==> exists j :: 0 <= j < |rows| && rows[j] == r.value && Matches(f, rows[j])
                                    && forall i :: 0 <= i < j ==> !Matches(f, rows[i])
  {
    SelectEmpty(rows, f);
    FirstSelected(rows, f);
    Head(Select(rows, f))
  }

  /** The last row passing a filter, in input order. */
  function LastMatch(rows: seq<Punch>, f: Filter): (r: Option<Punch>)
    ensures r.None? <==> forall p :: p in rows ==> !Matches(f, p)
    ensures r.Some? ==> exists j :: 0 <= j < |rows| && rows[j] == r.value && Matches(f, rows[j])
                                    && forall i :: j < i < |rows| ==> !Matches(f, rows[i])
  {
    SelectEmpty(rows, f);
    LastSelected(rows, f);
    Last(Select(rows, f))
  }

  /** The first match among the rows gathered under a key is the first
      match of the key and the alias in the whole input. */
  lemma FirstMatchUnderKey(rows: seq<Punch>, kind: KeyKind, k: string, a: string)
    ensures FirstMatch(Select(rows, KeyIs(kind, k)), AliasIs(a)) == FirstMatch(rows, KeyAndAlias(kind, k, a))
  {
    SelectTwice(rows, kind, k, a);
  }

  lemma LastMatchUnderKey(rows: seq<Punch>, kind: KeyKind, k: string, a: string)
    ensures LastMatch(Select(rows, KeyIs(kind, k)), AliasIs(a)) == LastMatch(rows, KeyAndAlias(kind, k, a))
  {
    SelectTwice(rows, kind, k, a);
  }

  /** The index of the first row with key `k` (|rows| when there is none). */
  function FirstIndex(rows: seq<Punch>, kind: KeyKind, k: string): (n: nat)
    ensures n <= |rows|
    ensures n < |rows| ==> KeyOf(kind, rows[n]) == k
    ensures forall i :: 0 <= i < n ==> KeyOf(kind, rows[i]) != k
  {
    FirstIndexFrom(rows, kind, k, 0)
  }

  /** The first index from `i` on whose row has key `k`. */
  function FirstIndexFrom(rows: seq<Punch>, kind: KeyKind, k: string, i: nat): (n: nat)
    requires i <= |rows|
    ensures i <= n <= |rows|
    ensures n < |rows| ==> KeyOf(kind, rows[n]) == k
    ensures forall j :: i <= j < n ==> KeyOf(kind, rows[j]) != k
    decreases |rows| - i
  {
    if i == |rows| then i
    else if KeyOf(kind, rows[i]) == k then i
    else FirstIndexFrom(rows, kind, k, i + 1)
  }

  /** The rows under a key that was seen begin with the first row that
      has it. */
  lemma GroupHead(rows: seq<Punch>, kind: KeyKind, k: string)
    requires k in Keys(rows, kind)
    ensures Select(rows, KeyIs(kind, k)) != []
    ensures FirstIndex(rows, kind, k) < |rows|
    ensures Select(rows, KeyIs(kind, k))[0] == rows[FirstIndex(rows, kind, k)]
    ensures KeyOf(kind, Select(rows, KeyIs(kind, k))[0]) == k
  {
    var p :| p in rows && KeyOf(kind, p) == k;
    assert p in Select(rows, KeyIs(kind, k));
    var j := FirstSelectedIndex(rows, KeyIs(kind, k));
    var n := FirstIndex(rows, kind, k);
    if n < j {
      assert Matches(KeyIs(kind, k), rows[n]);
    } else if j < n {
      assert false;
    }
  }

  lemma FirstIndexSeen(rows: seq<Punch>, kind: KeyKind, k: string)
    requires Seen(rows, kind, k)
    ensures FirstIndex(rows, kind, k) < |rows|
  {
    var p :| p in rows && KeyOf(kind, p) == k;
    var x :| 0 <= x < |rows| && rows[x] == p;
  }

  lemma FirstIndexSnoc(rows: seq<Punch>, r: Punch, kind: KeyKind, k: string)
    ensures Seen(rows, kind, k) ==> FirstIndex(rows + [r], kind, k) == FirstIndex(rows, kind, k)
    ensures !Seen(rows, kind, k) ==> FirstIndex(rows + [r], kind, k) >= |rows|
  {
    var s := rows + [r];
    var a, b := FirstIndex(rows, kind, k), FirstIndex(s, kind, k);
    assert forall i :: 0 <= i < |rows| ==> s[i] == rows[i];
    if Seen(rows, kind, k) {
      FirstIndexSeen(rows, kind, k);
    } else {
      assert forall i :: 0 <= i < |rows| ==> KeyOf(kind, s[i]) != k;
    }
  }

  /** Keys come out in the order of their first rows. */
  lemma {:induction false} KeysFirstSeen(rows: seq<Punch>, kind: KeyKind)
    ensures forall e, g :: 0 <= e < g < |Keys(rows, kind)| ==>
              FirstIndex(rows, kind, Keys(rows, kind)[e]) < FirstIndex(rows, kind, Keys(rows, kind)[g])
    decreases |rows|
  {
    if rows != [] {
      var init, r := rows[..|rows| - 1], rows[|rows| - 1];
      assert rows == init + [r];
      KeysFirstSeen(init, kind);
      forall e, g | 0 <= e < g < |Keys(rows, kind)|
        ensures FirstIndex(rows, kind, Keys(rows, kind)[e]) < FirstIndex(rows, kind, Keys(rows, kind)[g])
      {
        FirstSeenPair(init, r, kind, e, g);
      }
    }
  }

  /** One more row keeps the first rows of the keys listed so far in order,
      and a key it adds comes after all of them. */
  lemma FirstSeenPair(init: seq<Punch>, r: Punch, kind: KeyKind, e: nat, g: nat)
    requires e < g < |Keys(init + [r], kind)|
    requires g < |Keys(init, kind)| ==>
               FirstIndex(init, kind, Keys(init, kind)[e]) < FirstIndex(init, kind, Keys(init, kind)[g])
    ensures FirstIndex(init + [r], kind, Keys(init + [r], kind)[e])
            < FirstIndex(init + [r], kind, Keys(init + [r], kind)[g])
  {
    KeysSnoc(init, r, kind);
    var ks, ki := Keys(init + [r], kind), Keys(init, kind);
    assert ks[e] == ki[e];
    FirstSeenKept(init, r, kind, ks[e]);
    if g < |ki| {
      assert ks[g] == ki[g];
      FirstSeenKept(init, r, kind, ks[g]);
    } else {
      assert ks[g] !in ki;
      FirstSeenAdded(init, r, kind, ks[g]);
    }
  }

  /** A key already seen keeps its first row when a row is added. */
  lemma FirstSeenKept(init: seq<Punch>, r: Punch, kind: KeyKind, k: string)
    requires k in Keys(init, kind)
    ensures FirstIndex(init + [r], kind, k) == FirstIndex(init, kind, k) < |init|
  {
    FirstIndexSnoc(init, r, kind, k);
    FirstIndexSeen(init, kind, k);
  }

  /** A key not yet seen has its first row at the end, if anywhere. */
  lemma FirstSeenAdded(init: seq<Punch>, r: Punch, kind: KeyKind, k: string)
    requires k !in Keys(init, kind)
    ensures FirstIndex(init + [r], kind, k) >= |init|
  {
    FirstIndexSnoc(init, r, kind, k);
  }

  /** `order` and `groups` are what grouping `rows` by `kind` yields: the
      keys in insertion order, and under each key the rows pushed there. */
  ghost predicate Grouped(rows: seq<Punch>, kind: KeyKind, order: seq<string>, groups: map<string, seq<Punch>>) {
    && order == Keys(rows, kind)
    && (forall k :: k in groups <==> k in order)
    && (forall k :: k in groups ==> groups[k] == Select(rows, KeyIs(kind, k)))
  }

  /** One pass of `rows.forEach` that creates a group the first time a key
      is met and pushes the row into it: the keys in insertion order, and
      for each key the rows pushed under it. */
  method GroupBy(rows: seq<Punch>, kind: KeyKind) returns (order: seq<string>, groups: map<string, seq<Punch>>)
    ensures order == Keys(rows, kind)
    ensures forall k :: k in groups <==> k in order
    ensures forall k :: k in groups ==> groups[k] == Select(rows, KeyIs(kind, k))
  {
    order, groups := [], map[];
    for i := 0 to |rows|
      invariant Grouped(rows[..i], kind, order, groups)
    {
      var r := rows[i];
      var key := KeyOf(kind, r);
      assert rows[..i + 1] == rows[..i] + [r];
      var group := if key in groups then groups[key] else [];
      GroupPushed(rows[..i], r, kind, order, groups);
      GroupStep(rows[..i], r, kind, order, groups, group + [r]);
      if key !in groups {
        order := order + [key];
      }
      groups := groups[key := group + [r]];
    }
    assert rows[..|rows|] == rows;
  }

  /** Taking one more row into the groups of the rows before it, given
      the group its key has once the row is pushed. */
  lemma GroupStep(rows: seq<Punch>, r: Punch, kind: KeyKind, order: seq<string>, groups: map<string, seq<Punch>>,
                  group: seq<Punch>)
    requires Grouped(rows, kind, order, groups)
    requires group == Select(rows + [r], KeyIs(kind, KeyOf(kind, r)))
    ensures Grouped(rows + [r], kind, if KeyOf(kind, r) in groups then order else order + [KeyOf(kind, r)],
                    groups[KeyOf(kind, r) := group])
  {
    KeyOrderStep(rows, r, kind, order, groups, group);
    OtherGroups(rows, r, kind, groups, group);
  }

  /** The keys in insertion order gain the row's key when it is new, and so
      do the keys of the groups. */
  lemma KeyOrderStep(rows: seq<Punch>, r: Punch, kind: KeyKind, order: seq<string>, groups: map<string, seq<Punch>>,
                     group: seq<Punch>)
    requires order == Keys(rows, kind)
    requires forall k :: k in groups <==> k in order
    ensures var order' := if KeyOf(kind, r) in groups then order else order + [KeyOf(kind, r)];
            && order' == Keys(rows + [r], kind)
            && forall k :: k in groups[KeyOf(kind, r) := group] <==> k in order'
  {
    KeysSnoc(rows, r, kind);
  }

  /** The groups of the other keys stay as they were. */
  lemma OtherGroups(rows: seq<Punch>, r: Punch, kind: KeyKind, groups: map<string, seq<Punch>>, group: seq<Punch>)
    requires forall k :: k in groups ==> groups[k] == Select(rows, KeyIs(kind, k))
    requires group == Select(rows + [r], KeyIs(kind, KeyOf(kind, r)))
    ensures var pushed := groups[KeyOf(kind, r) := group];
            forall k :: k in pushed ==> pushed[k] == Select(rows + [r], KeyIs(kind, k))
  {
    var pushed := groups[KeyOf(kind, r) := group];
    forall k | k in pushed ensures pushed[k] == Select(rows + [r], KeyIs(kind, k)) {
      if k != KeyOf(kind, r) {
        SelectSnoc(rows, r, KeyIs(kind, k));
      }
    }
  }

  lemma NoRowsUnderNewKey(rows: seq<Punch>, kind: KeyKind, k: string)
    requires k !in Keys(rows, kind)
    ensures Select(rows, KeyIs(kind, k)) == []
  {
  }

  /** The row pushed onto its key's group, which starts empty when the key
      is new, gives the rows of that key so far. */
  lemma GroupPushed(rows: seq<Punch>, r: Punch, kind: KeyKind, order: seq<string>, groups: map<string, seq<Punch>>)
    requires Grouped(rows, kind, order, groups)
    ensures var key := KeyOf(kind, r);
            (if key in groups then groups[key] else []) + [r] == Select(rows + [r], KeyIs(kind, key))
  {
    var key := KeyOf(kind, r);
    SelectSnoc(rows, r, KeyIs(kind, key));
    if key !in groups {
      NoRowsUnderNewKey(rows, kind, key);
    }
  }
}
