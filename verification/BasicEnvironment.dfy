/** The environment object of `boost::process::v1` and its entries. The pointer array is kept beside the
    vector it points into: a pointer is the index of the string it points at, or null. */
module BasicEnvironment {
  import opened CStrings
  import opened Wrappers
  import opened EnvironmentV1
  import opened ValueLists

  /** Loading the pointer array writes a NUL into every empty string. */
  function Loaded(data: seq<string>): (r: seq<string>)
    ensures |r| == |data|
    ensures forall i :: 0 <= i < |data| ==> r[i] == if data[i] == "" then "\0" else data[i]
  {
    if data == [] then [] else [if data[0] == "" then "\0" else data[0]] + Loaded(data[1..])
  }

  lemma LoadedWhole(data: seq<string>)
    requires "" !in data
    ensures Loaded(data) == data
  {
  }

  /** The value an entry made from a C string points at. */
  function EntryValue(st: string): Option<string> {
    var vis := Visible(st);
    match KeyOf(vis)
    case None => None
    case Some(k) => NamesKey(vis, k); Some(vis[|k| + 1..])
  }

  /** `_load_var`: the strings, written to where they are empty, and the pointers to them. */
  method LoadVar(data: seq<string>) returns (loaded: seq<string>, ret: seq<Option<nat>>)
    ensures loaded == Loaded(data) && "" !in loaded
    ensures |ret| == |data| + 1 && ret[|data|] == None && forall i :: 0 <= i < |data| ==> ret[i] == Some(i)
  {
    loaded, ret := data, [];
    var i := 0;
    while i < |loaded|
      invariant 0 <= i <= |loaded| == |data| && |ret| == i
      invariant forall k :: 0 <= k < i ==> loaded[k] == Loaded(data)[k] && ret[k] == Some(k)
      invariant forall k :: i <= k < |data| ==> loaded[k] == data[k]
    {
      if loaded[i] == "" {
        loaded := loaded[i := "\0"];
      }
      ret := ret + [Some(i)];
      i := i + 1;
    }
    ret := ret + [None];
  }

  class Environment {
    var data: seq<string>
    var envArr: seq<Option<nat>>

    /** The pointer array has one pointer for each string, in order, and a null pointer at its end. */
    ghost predicate InStep()
      reads this
    {
      |envArr| == |data| + 1 && envArr[|data|] == None && "" !in data &&
      forall i :: 0 <= i < |data| ==> envArr[i] == Some(i)
    }

    constructor (native: seq<string>)
      ensures data == Loaded(native) && InStep()
    {
      data, envArr := native, [];
      new;
      Reload();
    }

    method Reload()
      modifies this
      ensures data == Loaded(old(data)) && InStep()
    {
      data, envArr := LoadVar(data);
    }

    /** The `find_if` of `set` and `reset`. */
    method FindNamed(id: string) returns (itr: nat)
      ensures itr <= |data| && (forall i :: 0 <= i < itr ==> !Names(data[i], id))
      ensures itr < |data| ==> Names(data[itr], id)
    {
      itr := 0;
      while itr != |data| && !Names(data[itr], id)
        invariant 0 <= itr <= |data| && forall i :: 0 <= i < itr ==> !Names(data[i], id)
        decreases |data| - itr
      {
        itr := itr + 1;
      }
    }

    method Set(id: string, value: string)
      requires InStep()
      modifies this
      ensures InStep() && data == SetVar(old(data), id, value)
    {
      var itr := FindNamed(id);
      SetVarAt(data, id, value, itr);
      if itr != |data| {
        data := data[itr := id + "=" + value];
      } else {
        data := data + [id + "=" + value];
      }
      LoadedWhole(data);
      Reload();
    }

    method Reset(id: string)
      requires InStep()
      modifies this
      ensures InStep() && data == ResetVar(old(data), id)
    {
      var itr := FindNamed(id);
      ResetVarAt(data, id, itr);
      if itr != |data| {
        data := data[..itr] + data[itr + 1..];
      }
      LoadedWhole(data);
      Reload();
    }

    /** The walk of `find` along the pointers up to the null pointer. */
    method Find(key: string) returns (p: nat)
      requires InStep()
      ensures p == FindVar(data, key)
    {
      p := 0;
      while envArr[p] != None
        invariant p <= |data| && FindVar(data, key) == p + FindVar(data[p..], key)
        decreases |data| - p
      {
        var st := data[envArr[p].value];
        if Shows(st, key) {
          break;
        }
        assert data[p..][1..] == data[p + 1..];
        p := p + 1;
      }
    }

    method Count(key: string) returns (n: nat)
      requires InStep()
      ensures n == if FindVar(data, key) < |data| then 1 else 0
    {
      var p := Find(key);
      n := if envArr[p] != None then 1 else 0;
    }

    /** `at`: `None` stands for the exception. */
    method At(key: string) returns (r: Option<string>)
      requires InStep()
      ensures r == Reloaded(data, key)
    {
      var p := Find(key);
      r := if envArr[p] == None then None else EntryValue(data[envArr[p].value]);
    }

    method Erase(id: string)
      requires InStep()
      modifies this
      ensures InStep() && data == Apply(old(data), Op.Erase(id))
    {
      Reset(id);
      LoadedWhole(data);
      Reload();
    }

    method Emplace(id: string, value: string) returns (p: nat, inserted: bool)
      requires InStep()
      modifies this
      ensures InStep() && data == Apply(old(data), Op.Emplace(id, value))
      ensures p == FindVar(data, id)
      ensures inserted <==> FindVar(old(data), id) == |old(data)|
    {
      p := Find(id);
      inserted := envArr[p] == None;
      if inserted {
        Set(id, value);
        LoadedWhole(data);
        Reload();
        p := Find(id);
      }
    }

    method Clear()
      requires InStep()
      modifies this
      ensures InStep() && data == ClearVars(old(data))
    {
      var names := EntryNames(data);
      for i := 0 to |names|
        invariant InStep() && ResetAll(data, names[i..]) == ClearVars(old(data))
      {
        assert names[i..][1..] == names[i + 1..];
        Reset(names[i]);
      }
      LoadedWhole(data);
      Reload();
    }
  }

  lemma {:induction false} SetVarAt(data: seq<string>, id: string, value: string, itr: nat)
    requires itr <= |data| && forall i :: 0 <= i < itr ==> !Names(data[i], id)
    requires itr < |data| ==> Names(data[itr], id)
    ensures SetVar(data, id, value) ==
            if itr < |data| then data[itr := id + "=" + value] else data + [id + "=" + value]
    decreases itr
  {
    if itr > 0 {
      SetVarAt(data[1..], id, value, itr - 1);
      assert data == [data[0]] + data[1..];
    }
  }

  lemma {:induction false} ResetVarAt(data: seq<string>, id: string, itr: nat)
    requires itr <= |data| && forall i :: 0 <= i < itr ==> !Names(data[i], id)
    requires itr < |data| ==> Names(data[itr], id)
    ensures ResetVar(data, id) == if itr < |data| then data[..itr] + data[itr + 1..] else data
    decreases itr
  {
    if itr == 0 {
      assert data != [] ==> data[..0] + data[1..] == data[1..];
    } else {
      ResetVarAt(data[1..], id, itr - 1);
      assert data == [data[0]] + data[1..];
      if itr < |data| {
        CutLater(data, itr);
      }
    }
  }

  lemma CutLater(data: seq<string>, itr: nat)
    requires 0 < itr < |data|
    ensures data[..itr] + data[itr + 1..] == [data[0]] + (data[1..][..itr - 1] + data[1..][itr..])
  {
    assert data[..itr] == [data[0]] + data[1..][..itr - 1];
    assert data[itr + 1..] == data[1..][itr..];
  }

  // ---- runs of operations on the object ---------------------------------------------------------

  method Perform(env: Environment, op: Op)
    requires env.InStep()
    modifies env
    ensures env.InStep() && env.data == Apply(old(env.data), op)
  {
    match op {
      case Set(id, value) => env.Set(id, value);
      case Erase(id) => env.Erase(id);
      case Emplace(id, value) => var p, inserted := env.Emplace(id, value);
    }
  }

  /** Any sequence of operations, then a lookup: the pointers stay in step, and for one entry per name and
      operations that are allowed, `at` and `count` answer as the map does after the same operations. */
  method Session(env: Environment, ops: seq<Op>, key: string) returns (value: Option<string>, count: nat)
    requires env.InStep()
    modifies env
    ensures env.InStep() && env.data == ApplyAll(old(env.data), ops)
    ensures Unique(old(env.data)) && AllAllowed(Model(old(env.data)), ops) ==>
              var m := ApplyAllMap(Model(old(env.data)), ops);
              && Unique(env.data) && Model(env.data) == m
              && value == (if MapShows(m, key) then Some(Visible(m[Base(key)])) else None)
              && count == if MapShows(m, key) then 1 else 0
  {
    ghost var before := env.data;
    for i := 0 to |ops|
      invariant env.InStep() && ApplyAll(env.data, ops[i..]) == ApplyAll(before, ops)
    {
      assert ops[i..][0] == ops[i] && ops[i..][1..] == ops[i + 1..];
      Perform(env, ops[i]);
    }
    value := env.At(key);
    count := env.Count(key);
    if Unique(before) && AllAllowed(Model(before), ops) {
      RunRefines(before, ops);
      RunUnique(before, ops);
      assert Occurrences(env.data, Base(key)) <= 1;
      ReloadedValue(env.data, key);
      FindAgrees(env.data, key);
    }
  }

  lemma {:induction false} RunUnique(data: seq<string>, ops: seq<Op>)
    requires KeepsUnique(data, ops)
    ensures Unique(ApplyAll(data, ops))
    decreases |ops|
  {
    if ops != [] {
      RunUnique(Apply(data, ops[0]), ops[1..]);
    }
  }

  // ---- entries ----------------------------------------------------------------------------------

  /** What an entry named `name` holds after `reload`. */
  function Reloaded(data: seq<string>, name: string): Option<string> {
    var p := FindVar(data, name);
    if p == |data| then None else EntryValue(data[p])
  }

  /** `at` and `reload` give the value of the map, as far as a C string shows it. */
  lemma ReloadedValue(data: seq<string>, name: string)
    requires Occurrences(data, Base(name)) <= 1
    ensures Reloaded(data, name) ==
            if MapShows(Model(data), name) then Some(Visible(Model(data)[Base(name)])) else None
  {
    FindAgrees(data, name);
    ghost var b, p := Base(name), FindVar(data, name);
    if p < |data| {
      BaseExtra(name);
      NoNulInBase(name);
      ShownEntry(b, Model(data)[b]);
    }
  }

  lemma NoNulInBase(name: string)
    requires '\0' !in name
    ensures '\0' !in Base(name)
  {
    BaseExtra(name);
    assert Base(name) <= name + "=";
    forall i | 0 <= i < |Base(name)| ensures Base(name)[i] != '\0' {
      assert (name + "=")[i] == Base(name)[i];
      assert i < |name| ==> name[i] in name;
    }
  }

  lemma ShownEntry(b: string, value: string)
    requires '\0' !in b && '=' !in b
    ensures EntryValue(b + "=" + value) == Some(Visible(value))
  {
    ghost var shown := Visible(value);
    VisibleAfter(b + "=", value);
    BaseExtra(b);
    WrittenEntry(b, shown);
    assert "" + shown == shown;
  }

  lemma ReloadedAfterSet(data: seq<string>, name: string, text: string)
    requires '=' !in name && '\0' !in name && Occurrences(data, name) <= 1
    ensures Reloaded(SetVar(data, name, text), name) == Stored(text)
  {
    ghost var after := SetVar(data, name, text);
    BaseExtra(name);
    SetCounts(data, name, text, name);
    SetIsUpdate(data, name, text);
    SeesOccurs(data, name);
    ReloadedValue(after, name);
    assert Model(after)[name] == "" + text == text;
  }

  /** The loop of the list form of `assign`. */
  method JoinAll(value: seq<string>) returns (data: string)
    ensures data == Join(value)
  {
    data := "";
    for i := 0 to |value|
      invariant data == Join(value[..i])
    {
      JoinSnoc(value[..i], value[i]);
      assert value[..i + 1] == value[..i] + [value[i]];
      if i != 0 {
        data := data + ":";
      }
      data := data + value[i];
    }
    assert value[..|value|] == value;
  }

  class Entry {
    const name: string
    const env: Environment
    var text: Option<string>

    /** The entry of a name: what it holds is what `reload` finds. */
    constructor (name: string, env: Environment)
      requires env.InStep()
      ensures this.name == name && this.env == env && text == Reloaded(env.data, name)
    {
      this.name, this.env := name, env;
      new;
      text := env.At(name);
    }

    method Reload()
      requires env.InStep()
      modifies this, env
      ensures env.InStep() && env.data == old(env.data) && text == Reloaded(env.data, name)
    {
      text := env.At(name);
      LoadedWhole(env.data);
      env.Reload();
    }

    method Assign(value: string)
      requires env.InStep()
      modifies this, env
      ensures env.InStep() && env.data == SetVar(old(env.data), name, value)
      ensures '=' !in name && '\0' !in name && Unique(old(env.data)) ==> text == Stored(value)
    {
      ghost var before := env.data;
      env.Set(name, value);
      Reload();
      if '=' !in name && '\0' !in name && Unique(before) {
        assert Occurrences(before, name) <= 1;
        ReloadedAfterSet(before, name, value);
      }
    }

    method AssignList(value: seq<string>)
      requires env.InStep()
      modifies this, env
      ensures env.InStep() && env.data == SetVar(old(env.data), name, Join(value))
      ensures '=' !in name && '\0' !in name && Unique(old(env.data)) ==> text == Stored(Join(value))
    {
      var data := JoinAll(value);
      Assign(data);
    }

    method Append(value: string)
      requires env.InStep()
      modifies this, env
      ensures env.InStep() && env.data == SetVar(old(env.data), name, AppendText(old(text), value))
      ensures '=' !in name && '\0' !in name && Unique(old(env.data)) ==>
        text == Stored(AppendText(old(text), value))
    {
      if text.None? {
        Assign(value);
      } else {
        var st := text.value;
        Assign(st + ":" + value);
      }
    }

    /** `clear` of an entry removes its variable. */
    method Clear()
      requires env.InStep()
      modifies this, env
      ensures env.InStep() && env.data == ResetVar(old(env.data), name) && text == None
    {
      env.Reset(name);
      LoadedWhole(env.data);
      env.Reload();
      text := None;
    }

    method ReadVector() returns (r: seq<string>)
      ensures r == ToVector(text)
    {
      r := if text.None? then [] else Split(text.value);
    }
  }

  lemma {:induction false} JoinSnoc(vs: seq<string>, v: string)
    ensures Join(vs + [v]) == if vs == [] then v else Join(vs) + ":" + v
  {
    var all := vs + [v];
    if vs == [] {
      assert all == [v];
    } else if |vs| == 1 {
      assert all[1..] == [v];
    } else {
      var rest := vs[1..];
      JoinSnoc(rest, v);
      assert all[1..] == rest + [v] && all[0] == vs[0];
      Associate(vs[0] + ":", Join(rest) + ":", v);
      Associate(vs[0] + ":", Join(rest), ":");
    }
  }

  /** Assigning a list to an entry and then appending to it, on the object: the vector read at the end
      is the list and the appended elements. */
  method ListSession(entry: Entry, vs: seq<string>, values: seq<string>) returns (r: seq<string>)
    requires entry.env.InStep() && Unique(entry.env.data) && '=' !in entry.name && '\0' !in entry.name
    modifies entry, entry.env
    ensures vs != [] && vs != [""] && Clean(vs) && Clean(values) ==> r == vs + values
  {
    ghost var start := Stored(Join(vs));
    UniqueAfterSet(entry.env.data, entry.name, Join(vs));
    entry.AssignList(vs);
    for i := 0 to |values|
      invariant entry.env.InStep() && Unique(entry.env.data)
      invariant AppendAll(entry.text, values[i..]) == AppendAll(start, values)
    {
      assert values[i..][1..] == values[i + 1..];
      UniqueAfterSet(entry.env.data, entry.name, AppendText(entry.text, values[i]));
      entry.Append(values[i]);
    }
    r := entry.ReadVector();
    if vs != [] && vs != [""] && Clean(vs) && Clean(values) {
      AssignAppend(vs, values);
    }
  }

  lemma UniqueAfterSet(data: seq<string>, id: string, value: string)
    requires Unique(data) && '=' !in id
    ensures Unique(SetVar(data, id, value))
  {
    BaseExtra(id);
    SetUniqueIff(data, id, value);
  }
}
