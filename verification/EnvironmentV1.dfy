/** The vector-backed environment of `boost::process::v1` as texts: what `set`, `reset`, `find`,
    `emplace` and `clear` do to the entries, and the abstract map they implement. */
module EnvironmentV1 {
  import opened CStrings
  import opened Wrappers

  // ---- entries ----------------------------------------------------------------------------------

  /** The search of `set` and `reset`: the entry is `id`, an equal sign and any value. */
  predicate Names(st: string, id: string) {
    |st| > |id| && st[..|id|] == id && st[|id|] == '='
  }

  /** The search of `find` and `count`: what is shown is longer than `key` and an equal sign. */
  predicate Shows(st: string, key: string) {
    var st1 := key + "=";
    |st1| < |Visible(st)| && st1 <= Visible(st)
  }

  /** A name and value that `find` can see: the name ends at no NUL, and the value is not empty. */
  predicate Shown(key: string, value: string) {
    '\0' !in key && value != "" && value[0] != '\0'
  }

  lemma ShowsMeans(st: string, key: string)
    ensures Shows(st, key) <==> Names(st, key) && Shown(key, st[|key| + 1..])
  {
    ghost var st1, vis := key + "=", Visible(st);
    if Shows(st, key) {
      assert st[..|st1|] == vis[..|st1|] == st1;
      assert st1[..|key|] == key && st1[|key|] == '=';
      assert forall c :: c in key ==> c in vis;
      assert st[|st1|] == vis[|st1|] && vis[|st1|] in vis;
    }
    if Names(st, key) && Shown(key, st[|key| + 1..]) {
      assert st == st1 + st[|key| + 1..];
      VisibleAfter(st1, st[|key| + 1..]);
    }
  }

  function KeyOf(st: string): (r: Option<string>)
    ensures r.Some? ==> '=' !in r.value && |r.value| < |st|
  {
    if st == "" then None
    else if st[0] == '=' then Some("")
    else match KeyOf(st[1..]) case None => None case Some(k) => Some([st[0]] + k)
  }

  lemma {:induction false} NamesKey(st: string, id: string)
    requires '=' !in id
    ensures Names(st, id) <==> KeyOf(st) == Some(id)
    decreases st
  {
    if st != "" && st[0] != '=' {
      if id != "" {
        assert id[0] in id;
        NamesKey(st[1..], id[1..]);
        assert id == [id[0]] + id[1..];
        if Names(st, id) {
          assert st[0] == st[..|id|][0];
          assert st[1..][..|id| - 1] == st[..|id|][1..];
        }
        if st[0] == id[0] && Names(st[1..], id[1..]) {
          assert st[..|id|] == [st[0]] + st[1..][..|id| - 1];
        }
      }
    } else if st != "" && id != "" {
      assert id[0] in id;
      if |st| > |id| {
        assert st[..|id|][0] == st[0];
      }
    }
  }

  // A name may hold equal signs itself. An entry's variable is what precedes its first one, so such a name
  // stands for the variable `Base(id)` restricted to values that begin with `Extra(id)`.

  function Base(id: string): (r: string)
    ensures '=' !in r
  {
    match KeyOf(id) case None => KeyExists(id); id case Some(k) => k
  }

  function Extra(id: string): string {
    match KeyOf(id) case None => "" case Some(k) => NamesKey(id, k); id[|k| + 1..] + "="
  }

  lemma {:induction false} KeyExists(st: string)
    ensures KeyOf(st).Some? <==> '=' in st
  {
    if st != "" {
      KeyExists(st[1..]);
      assert st == [st[0]] + st[1..];
    }
  }

  lemma BaseExtra(id: string)
    ensures id + "=" == Base(id) + "=" + Extra(id)
    ensures '=' !in id ==> Base(id) == id && Extra(id) == ""
  {
    KeyExists(id);
    if KeyOf(id).Some? {
      ghost var k := KeyOf(id).value;
      NamesKey(id, k);
      assert id == k + "=" + id[|k| + 1..];
    }
  }

  lemma NamesPrefix(st: string, id: string)
    ensures Names(st, id) <==> id + "=" <= st
    ensures Names(st, id) ==> st == id + "=" + st[|id| + 1..]
  {
    ghost var st1 := id + "=";
    assert st1[..|id|] == id && st1[|id|] == '=';
    if st1 <= st {
      assert st[..|id|] == st1[..|id|];
    }
    if Names(st, id) {
      assert st[..|id| + 1] == st1;
    }
  }

  /** What the search of `set` and `reset` compares, for any name. */
  lemma NamesBase(st: string, id: string)
    ensures Names(st, id) <==> KeyOf(st) == Some(Base(id)) && Extra(id) <= st[|Base(id)| + 1..]
  {
    ghost var b, e := Base(id), Extra(id);
    BaseExtra(id);
    NamesPrefix(st, id);
    NamesPrefix(st, b);
    NamesKey(st, b);
    assert b + "=" <= b + "=" + e;
    if Names(st, b) {
      ghost var v := st[|b| + 1..];
      assert st == (b + "=") + v;
      if e <= v {
        assert v == e + v[|e|..];
        assert st == (b + "=" + e) + v[|e|..];
      }
      if b + "=" + e <= st {
        assert st[|b| + 1..][..|e|] == (b + "=" + e)[|b| + 1..];
      }
    }
  }

  // ---- the vector -------------------------------------------------------------------------------

  function SetVar(data: seq<string>, id: string, value: string): seq<string> {
    if data == [] then [id + "=" + value]
    else if Names(data[0], id) then [id + "=" + value] + data[1..]
    else [data[0]] + SetVar(data[1..], id, value)
  }

  function ResetVar(data: seq<string>, id: string): seq<string> {
    if data == [] then []
    else if Names(data[0], id) then data[1..]
    else [data[0]] + ResetVar(data[1..], id)
  }

  /** Where `find` stops; `|data|` is the null pointer. */
  function FindVar(data: seq<string>, key: string): (p: nat)
    ensures p <= |data|
    ensures p < |data| ==> Shows(data[p], key)
  {
    if data == [] then 0 else if Shows(data[0], key) then 0 else 1 + FindVar(data[1..], key)
  }

  function EmplaceVar(data: seq<string>, id: string, value: string): seq<string> {
    if FindVar(data, id) == |data| then SetVar(data, id, value) else data
  }

  function Occurrences(data: seq<string>, id: string): nat {
    if data == [] then 0 else (if Names(data[0], id) then 1 else 0) + Occurrences(data[1..], id)
  }

  /** At most one entry for each name. */
  ghost predicate Unique(data: seq<string>) {
    forall id :: '=' !in id ==> Occurrences(data, id) <= 1
  }

  // ---- the abstract map -------------------------------------------------------------------------

  /** The variables: the first entry of each name gives its value. */
  function Model(data: seq<string>): map<string, string> {
    if data == [] then map[]
    else match KeyOf(data[0])
      case None => Model(data[1..])
      case Some(k) => NamesKey(data[0], k); Model(data[1..])[k := data[0][|k| + 1..]]
  }

  lemma {:induction false} ModelHas(data: seq<string>, id: string)
    requires '=' !in id
    ensures id in Model(data) <==> Occurrences(data, id) > 0
  {
    if data != [] {
      NamesKey(data[0], id);
      ModelHas(data[1..], id);
    }
  }

  /** The map has the variable `id` stands for. */
  predicate Sees(m: map<string, string>, id: string) {
    Base(id) in m && Extra(id) <= m[Base(id)]
  }

  lemma PrefixRest(st: string, u: string, v: string)
    requires st == u + v
    ensures u <= st && st[|u|..] == v
  {
  }

  lemma WrittenEntry(id: string, value: string)
    ensures KeyOf(id + "=" + value) == Some(Base(id))
    ensures (id + "=" + value)[|Base(id)| + 1..] == Extra(id) + value
    ensures Names(id + "=" + value, id)
  {
    ghost var st, b := id + "=" + value, Base(id);
    BaseExtra(id);
    Associate(b + "=", Extra(id), value);
    PrefixRest(st, b + "=", Extra(id) + value);
    PrefixRest(st, id + "=", value);
    NamesPrefix(st, b);
    NamesKey(st, b);
    NamesPrefix(st, id);
  }

  /** What `set` does to the variables: map update, unless the name holds an equal sign and the map has a
      variable that the name does not match; then nothing. */
  function Updated(m: map<string, string>, id: string, value: string): map<string, string> {
    if Base(id) !in m || Sees(m, id) then SetMap(m, id, value) else m
  }

  function SetMap(m: map<string, string>, id: string, value: string): map<string, string> {
    m[Base(id) := Extra(id) + value]
  }

  lemma SetFirst(st: string, rest: seq<string>, id: string, value: string)
    requires Names(st, id)
    ensures Model([id + "=" + value] + rest) == Updated(Model([st] + rest), id, value)
  {
    ghost var b, m := Base(id), Model(rest);
    WrittenEntry(id, value);
    NamesBase(st, id);
    ModelCons(st, rest);
    ModelCons(id + "=" + value, rest);
    Overwritten(m, b, st[|b| + 1..], Extra(id) + value);
  }

  lemma SetLater(st: string, rest: seq<string>, after: seq<string>, id: string, value: string)
    requires !Names(st, id) && Model(after) == Updated(Model(rest), id, value)
    ensures Model([st] + after) == Updated(Model([st] + rest), id, value)
  {
    NamesBase(st, id);
    ModelCons(st, rest);
    ModelCons(st, after);
    if KeyOf(st).Some? {
      ghost var k := KeyOf(st).value;
      NamesKey(st, k);
      UpdatedElsewhere(Model(rest), k, st[|k| + 1..], id, value);
    }
  }

  /** That holds whatever the entries are, also with several entries of a name. */
  lemma {:induction false} SetIsUpdate(data: seq<string>, id: string, value: string)
    ensures Model(SetVar(data, id, value)) == Updated(Model(data), id, value)
  {
    if data == [] {
      WrittenEntry(id, value);
      ModelCons(id + "=" + value, []);
      assert [id + "=" + value] + [] == [id + "=" + value];
    } else {
      var st, rest := data[0], data[1..];
      assert data == [st] + rest;
      if Names(st, id) {
        SetFirst(st, rest, id, value);
      } else {
        SetIsUpdate(rest, id, value);
        SetLater(st, rest, SetVar(rest, id, value), id, value);
      }
    }
  }

  lemma Overwritten(m: map<string, string>, k: string, v: string, w: string)
    ensures m[k := v][k := w] == m[k := w]
  {
  }

  lemma UpdatedElsewhere(m: map<string, string>, k: string, v: string, id: string, value: string)
    requires k == Base(id) ==> !(Extra(id) <= v)
    ensures Updated(m, id, value)[k := v] == Updated(m[k := v], id, value)
  {
  }

  lemma UpdateElsewhere(m: map<string, string>, m': map<string, string>, k: string, v: string, id: string)
    requires m - {id} == m' - {id}
    ensures m[k := v] - {id} == m'[k := v] - {id}
    ensures k == id ==> m[k := v] == m'[k := v]
  {
    forall x | x != id ensures (x in m <==> x in m') && (x in m ==> m[x] == m'[x]) {
      assert x in m - {id} <==> x in m;
      assert x in m' - {id} <==> x in m';
    }
  }

  lemma ModelCons(st: string, rest: seq<string>)
    ensures Model([st] + rest) ==
            match KeyOf(st)
            case None => Model(rest)
            case Some(k) => (NamesKey(st, k); Model(rest)[k := st[|k| + 1..]])
  {
    assert ([st] + rest)[1..] == rest;
  }

  lemma {:induction false} ResetKeepsOthers(data: seq<string>, id: string)
    ensures Model(ResetVar(data, id)) - {Base(id)} == Model(data) - {Base(id)}
  {
    if data != [] {
      var b, m, r := Base(id), Model(data[1..]), ResetVar(data[1..], id);
      NamesBase(data[0], id);
      if Names(data[0], id) {
        assert ResetVar(data, id) == data[1..];
        assert m[b := data[0][|b| + 1..]] - {b} == m - {b};
      } else {
        ResetKeepsOthers(data[1..], id);
        ModelCons(data[0], r);
        if KeyOf(data[0]).Some? {
          var k := KeyOf(data[0]).value;
          NamesKey(data[0], k);
          UpdateElsewhere(m, Model(r), k, data[0][|k| + 1..], b);
        }
      }
    }
  }

  /** `reset` of a name the map does not see changes no variable. */
  lemma {:induction false} ResetUnseen(data: seq<string>, id: string)
    requires !Sees(Model(data), id)
    ensures Model(ResetVar(data, id)) == Model(data)
  {
    if data != [] {
      NamesBase(data[0], id);
      var r := ResetVar(data[1..], id);
      ModelCons(data[0], r);
      if KeyOf(data[0]) == Some(Base(id)) {
        NamesKey(data[0], Base(id));
        ResetKeepsOthers(data[1..], id);
        UpdateElsewhere(Model(data[1..]), Model(r), Base(id), data[0][|Base(id)| + 1..], Base(id));
      } else {
        ResetUnseen(data[1..], id);
      }
    }
  }

  lemma {:induction false} ResetCounts(data: seq<string>, id: string, k: string)
    requires '=' !in k
    ensures Occurrences(ResetVar(data, id), k) ==
            if k == Base(id) && Occurrences(data, id) > 0 then Occurrences(data, k) - 1 else Occurrences(data, k)
  {
    if data != [] {
      NamesBase(data[0], id);
      NamesKey(data[0], k);
      if !Names(data[0], id) {
        ResetCounts(data[1..], id, k);
        assert ResetVar(data, id)[1..] == ResetVar(data[1..], id);
      }
    }
  }

  lemma {:induction false} SeesOccurs(data: seq<string>, id: string)
    ensures Sees(Model(data), id) ==> Occurrences(data, id) > 0
    ensures Occurrences(data, Base(id)) <= 1 ==> (Sees(Model(data), id) <==> Occurrences(data, id) > 0)
    ensures Occurrences(data, id) <= Occurrences(data, Base(id))
  {
    if data != [] {
      var b, m := Base(id), Model(data[1..]);
      NamesBase(data[0], id);
      NamesKey(data[0], b);
      SeesOccurs(data[1..], id);
      if KeyOf(data[0]) == Some(b) {
        assert Model(data)[b] == data[0][|b| + 1..];
      } else {
        assert Sees(Model(data), id) == Sees(m, id);
      }
    }
  }

  function EraseMap(m: map<string, string>, id: string): map<string, string> {
    if Sees(m, id) then m - {Base(id)} else m
  }

  /** `reset` is map removal exactly when the map does not see the name, or one entry carries it. */
  lemma ResetIsRemovalIff(data: seq<string>, id: string)
    ensures Model(ResetVar(data, id)) == EraseMap(Model(data), id) <==>
            (Sees(Model(data), id) ==> Occurrences(data, Base(id)) == 1)
  {
    ghost var b, m, r := Base(id), Model(data), Model(ResetVar(data, id));
    if !Sees(m, id) {
      ResetUnseen(data, id);
    } else {
      ResetKeepsOthers(data, id);
      ResetCounts(data, id, b);
      SeesOccurs(data, id);
      ModelHas(ResetVar(data, id), b);
      if b !in r {
        assert r - {b} == r;
      } else {
        assert b !in m - {b};
      }
    }
  }

  lemma {:induction false} SetCounts(data: seq<string>, id: string, value: string, k: string)
    requires '=' !in k
    ensures Occurrences(SetVar(data, id, value), k) ==
            Occurrences(data, k) + if k == Base(id) && Occurrences(data, id) == 0 then 1 else 0
  {
    var st := id + "=" + value;
    WrittenEntry(id, value);
    NamesKey(st, k);
    if data == [] {
      assert [st][1..] == [];
    } else {
      NamesBase(data[0], id);
      NamesKey(data[0], k);
      if Names(data[0], id) {
        assert SetVar(data, id, value)[1..] == data[1..];
      } else {
        SetCounts(data[1..], id, value, k);
        assert SetVar(data, id, value)[1..] == SetVar(data[1..], id, value);
      }
    }
  }

  lemma {:induction false} FindSkips(data: seq<string>, key: string)
    requires Occurrences(data, key) == 0
    ensures FindVar(data, key) == |data|
  {
    if data != [] {
      ShowsMeans(data[0], key);
      FindSkips(data[1..], key);
    }
  }

  /** The map has the variable with a value that `find` can see. */
  predicate MapShows(m: map<string, string>, key: string) {
    Sees(m, key) && Shown(key, m[Base(key)][|Extra(key)|..])
  }

  lemma ShowsBase(st: string, key: string)
    ensures Shows(st, key) <==>
            KeyOf(st) == Some(Base(key)) && Extra(key) <= st[|Base(key)| + 1..] &&
            Shown(key, st[|Base(key)| + 1..][|Extra(key)|..])
  {
    ghost var b, e := Base(key), Extra(key);
    ShowsMeans(st, key);
    NamesBase(st, key);
    BaseExtra(key);
    assert |key| + 1 == |b| + 1 + |e|;
    if Names(st, key) {
      DropTwice(st, |b| + 1, |e|);
    }
  }

  lemma DropTwice(st: string, i: nat, j: nat)
    requires i + j <= |st|
    ensures st[i..][j..] == st[i + j..]
  {
  }

  /** What the map shows, `find` and `count` see, and the entry found is that variable; when no other entry
      carries the name, they see nothing else. */
  lemma {:induction false} FindAgrees(data: seq<string>, key: string)
    ensures MapShows(Model(data), key) ==>
              FindVar(data, key) < |data| &&
              data[FindVar(data, key)] == Base(key) + "=" + Model(data)[Base(key)]
    ensures Occurrences(data, Base(key)) <= 1 ==>
              (FindVar(data, key) < |data| <==> MapShows(Model(data), key))
  {
    if data != [] {
      var st, b := data[0], Base(key);
      ShowsBase(st, key);
      NamesKey(st, b);
      if KeyOf(st) == Some(b) {
        NamesPrefix(st, b);
        assert Model(data)[b] == st[|b| + 1..];
        if Occurrences(data, b) <= 1 {
          SeesOccurs(data[1..], key);
          FindSkips(data[1..], key);
        }
      } else {
        FindAgrees(data[1..], key);
        assert MapShows(Model(data), key) == MapShows(Model(data[1..]), key);
      }
    }
  }

  // ---- runs of operations -----------------------------------------------------------------------

  datatype Op =
    | Set(id: string, value: string)
    | Erase(id: string)
    | Emplace(id: string, value: string)

  function Apply(data: seq<string>, op: Op): seq<string> {
    match op
    case Set(id, value) => SetVar(data, id, value)
    case Erase(id) => ResetVar(data, id)
    case Emplace(id, value) => EmplaceVar(data, id, value)
  }

  /** The same on a map; an invisible value does not keep `emplace` from writing. */
  function ApplyMap(m: map<string, string>, op: Op): map<string, string> {
    match op
    case Set(id, value) => SetMap(m, id, value)
    case Erase(id) => EraseMap(m, id)
    case Emplace(id, value) => if MapShows(m, id) then m else SetMap(m, id, value)
  }

  function ApplyAll(data: seq<string>, ops: seq<Op>): seq<string>
    decreases |ops|
  {
    if ops == [] then data else ApplyAll(Apply(data, ops[0]), ops[1..])
  }

  function ApplyAllMap(m: map<string, string>, ops: seq<Op>): map<string, string>
    decreases |ops|
  {
    if ops == [] then m else ApplyAllMap(ApplyMap(m, ops[0]), ops[1..])
  }

  /** The operation does not write beside a variable of the same name. A name without `=` never does. */
  predicate Allowed(m: map<string, string>, op: Op) {
    op.Erase? || Base(op.id) !in m || Sees(m, op.id)
  }

  predicate AllAllowed(m: map<string, string>, ops: seq<Op>)
    decreases |ops|
  {
    ops == [] || (Allowed(m, ops[0]) && AllAllowed(ApplyMap(m, ops[0]), ops[1..]))
  }

  lemma {:induction false} PlainNamesAllowed(m: map<string, string>, ops: seq<Op>)
    requires forall i :: 0 <= i < |ops| ==> '=' !in ops[i].id
    ensures AllAllowed(m, ops)
    decreases |ops|
  {
    if ops != [] {
      BaseExtra(ops[0].id);
      PlainNamesAllowed(ApplyMap(m, ops[0]), ops[1..]);
    }
  }

  lemma SetUniqueIff(data: seq<string>, id: string, value: string)
    requires Unique(data)
    ensures Unique(SetVar(data, id, value)) <==> Base(id) !in Model(data) || Sees(Model(data), id)
  {
    ghost var b, after := Base(id), SetVar(data, id, value);
    SeesOccurs(data, id);
    ModelHas(data, b);
    assert Occurrences(data, b) <= 1;
    SetCounts(data, id, value, b);
    if Base(id) !in Model(data) || Sees(Model(data), id) {
      forall k | '=' !in k ensures Occurrences(after, k) <= 1 {
        assert Occurrences(data, k) <= 1;
        SetCounts(data, id, value, k);
      }
    } else {
      assert Occurrences(after, b) == 2;
    }
  }

  lemma ResetUnique(data: seq<string>, id: string)
    requires Unique(data)
    ensures Unique(ResetVar(data, id))
  {
    forall k | '=' !in k ensures Occurrences(ResetVar(data, id), k) <= 1 {
      assert Occurrences(data, k) <= 1;
      ResetCounts(data, id, k);
    }
  }

  /** On one entry per name, an operation keeps that and acts as on the map exactly when it is allowed. */
  lemma ApplyRefinesIff(data: seq<string>, op: Op)
    requires Unique(data)
    ensures Unique(Apply(data, op)) <==> Allowed(Model(data), op)
    ensures Model(Apply(data, op)) == ApplyMap(Model(data), op) <==> Allowed(Model(data), op)
  {
    ghost var m, b := Model(data), Base(op.id);
    assert Occurrences(data, b) <= 1;
    ModelHas(data, b);
    match op {
      case Set(id, value) =>
        SetIsUpdate(data, id, value);
        SetUniqueIff(data, id, value);
        ExtraLost(m, id, value);
      case Erase(id) =>
        ResetIsRemovalIff(data, id);
        ResetUnique(data, id);
      case Emplace(id, value) =>
        FindAgrees(data, id);
        SetIsUpdate(data, id, value);
        SetUniqueIff(data, id, value);
        ExtraLost(m, id, value);
    }
  }

  lemma ExtraLost(m: map<string, string>, id: string, value: string)
    ensures Base(id) in m && !Sees(m, id) ==> m != SetMap(m, id, value)
  {
    assert SetMap(m, id, value)[Base(id)] == Extra(id) + value;
  }

  /** One entry per name before and after every operation. */
  ghost predicate KeepsUnique(data: seq<string>, ops: seq<Op>)
    decreases |ops|
  {
    Unique(data) && (ops == [] || KeepsUnique(Apply(data, ops[0]), ops[1..]))
  }

  /** A run of `set`, `erase` and `emplace` keeps one entry per name exactly when it starts so and every
      operation is allowed, and then it acts on the variables as it acts on the map. */
  lemma {:induction false} RunRefines(data: seq<string>, ops: seq<Op>)
    ensures KeepsUnique(data, ops) <==> Unique(data) && AllAllowed(Model(data), ops)
    ensures KeepsUnique(data, ops) ==> Model(ApplyAll(data, ops)) == ApplyAllMap(Model(data), ops)
    decreases |ops|
  {
    if ops != [] && Unique(data) {
      ApplyRefinesIff(data, ops[0]);
      RunRefines(Apply(data, ops[0]), ops[1..]);
    }
  }

  // ---- clear ------------------------------------------------------------------------------------

  /** The name an iterator gives an entry: what it shows before `=`, or all of it. */
  function EntryName(st: string): string {
    match KeyOf(Visible(st)) case None => Visible(st) case Some(k) => k
  }

  function EntryNames(data: seq<string>): (r: seq<string>)
    ensures |r| == |data| && forall i :: 0 <= i < |data| ==> r[i] == EntryName(data[i])
  {
    if data == [] then [] else [EntryName(data[0])] + EntryNames(data[1..])
  }

  function ResetAll(data: seq<string>, names: seq<string>): seq<string>
    decreases |names|
  {
    if names == [] then data else ResetAll(ResetVar(data, names[0]), names[1..])
  }

  /** The entries that show no `=`. */
  function Nameless(data: seq<string>): seq<string> {
    if data == [] then []
    else (if '=' in Visible(data[0]) then [] else [data[0]]) + Nameless(data[1..])
  }

  function Count(names: seq<string>, x: string): nat {
    if names == [] then 0 else (if names[0] == x then 1 else 0) + Count(names[1..], x)
  }

  /** Cutting an entry at its first NUL does not change whether it carries a proper name. */
  lemma VisibleNames(st: string, id: string)
    requires '\0' !in id
    ensures Names(st, id) <==> Names(Visible(st), id)
  {
    ghost var vis := Visible(st);
    if Names(st, id) {
      ghost var st1, value := id + "=", st[|id| + 1..];
      assert st == st1 + value;
      VisibleAfter(st1, value);
      assert vis == st1 + Visible(value);
      assert (st1 + Visible(value))[..|id|] == id;
    }
    if Names(vis, id) {
      assert st[..|id|] == vis[..|id|];
    }
  }

  /** A name an iterator gives matches an entry only if the entry shows that name. */
  lemma NamedVisibly(st: string, id: string)
    requires '=' !in id && '\0' !in id
    ensures Names(st, id) <==> '=' in Visible(st) && EntryName(st) == id
  {
    VisibleNames(st, id);
    KeyExists(Visible(st));
    NamesKey(Visible(st), id);
  }

  ghost predicate Proper(x: string) {
    '=' !in x && '\0' !in x
  }

  lemma EntryNameProper(st: string)
    ensures Proper(EntryName(st))
  {
    ghost var vis := Visible(st);
    KeyExists(vis);
    if KeyOf(vis).Some? {
      ghost var k := KeyOf(vis).value;
      NamesKey(vis, k);
      forall i | 0 <= i < |k| ensures k[i] != '\0' {
        assert k[i] == vis[..|k|][i] == vis[i];
      }
    }
  }

  lemma {:induction false} ResetKeepsNameless(data: seq<string>, id: string)
    requires '=' !in id && '\0' !in id
    ensures Nameless(ResetVar(data, id)) == Nameless(data)
  {
    if data != [] {
      NamedVisibly(data[0], id);
      if !Names(data[0], id) {
        var rest := ResetVar(data[1..], id);
        ResetKeepsNameless(data[1..], id);
        NamelessCons(data[0], rest);
      }
    }
  }

  lemma NamelessCons(st: string, rest: seq<string>)
    ensures Nameless([st] + rest) == (if '=' in Visible(st) then [] else [st]) + Nameless(rest)
  {
    assert ([st] + rest)[1..] == rest;
  }

  lemma {:induction false} NamesCount(data: seq<string>, x: string)
    requires '=' !in x && '\0' !in x
    ensures Occurrences(data, x) <= Count(EntryNames(data), x)
  {
    if data != [] {
      NamedVisibly(data[0], x);
      NamesCount(data[1..], x);
      assert EntryNames(data)[1..] == EntryNames(data[1..]);
    }
  }

  lemma {:induction false} NothingNamed(data: seq<string>)
    requires forall x :: Proper(x) ==> Occurrences(data, x) == 0
    ensures Nameless(data) == data
  {
    if data != [] {
      var x := EntryName(data[0]);
      EntryNameProper(data[0]);
      NamedVisibly(data[0], x);
      assert Occurrences(data, x) == 0;
      forall y | Proper(y) ensures Occurrences(data[1..], y) == 0 {
        assert Occurrences(data, y) == 0;
      }
      NothingNamed(data[1..]);
    }
  }

  /** As long as every name still to be reset covers the entries that carry it, nothing named is left
      at the end. */
  lemma {:induction false} ResetAllLeaves(data: seq<string>, names: seq<string>)
    requires forall i :: 0 <= i < |names| ==> Proper(names[i])
    requires forall x :: Proper(x) ==> Occurrences(data, x) <= Count(names, x)
    ensures ResetAll(data, names) == Nameless(data)
    decreases |names|
  {
    if names == [] {
      NothingNamed(data);
    } else {
      var rest := ResetVar(data, names[0]);
      BaseExtra(names[0]);
      forall x | Proper(x) ensures Occurrences(rest, x) <= Count(names[1..], x) {
        ResetCounts(data, names[0], x);
        assert Occurrences(data, x) <= Count(names, x);
      }
      ResetKeepsNameless(data, names[0]);
      ResetAllLeaves(rest, names[1..]);
    }
  }

  function ClearVars(data: seq<string>): seq<string> {
    ResetAll(data, EntryNames(data))
  }

  /** `clear` removes every entry that shows an equal sign, also when a name has several, and keeps the
      others in order. */
  lemma ClearLeaves(data: seq<string>)
    ensures ClearVars(data) == Nameless(data)
  {
    forall i | 0 <= i < |data| ensures Proper(EntryNames(data)[i]) {
      EntryNameProper(data[i]);
    }
    forall x | Proper(x) ensures Occurrences(data, x) <= Count(EntryNames(data), x) {
      NamesCount(data, x);
    }
    ResetAllLeaves(data, EntryNames(data));
  }

  lemma {:induction false} NamelessEmpty(data: seq<string>)
    ensures Nameless(data) == [] <==> forall i :: 0 <= i < |data| ==> '=' in Visible(data[i])
  {
    if data != [] {
      NamelessEmpty(data[1..]);
      assert data == [data[0]] + data[1..];
    }
  }

  /** `clear` empties the environment exactly when every entry shows an equal sign. */
  lemma ClearEmptiesIff(data: seq<string>)
    ensures ClearVars(data) == [] <==> forall i :: 0 <= i < |data| ==> '=' in Visible(data[i])
  {
    ClearLeaves(data);
    NamelessEmpty(data);
  }
}
