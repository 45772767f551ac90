/** The registry builder, `initFlagSet`: walks a record's fields in
    declaration order, flattens untagged-name nested records into the same
    registry, indexes every flag name, refuses repeated names and seeds the
    recorded values with defaults. */
module Builder {
  import opened Wrappers
  import opened Errors
  import opened Flags
  import opened Seqs

  lemma DistinctCons(n: string, rest: seq<string>)
    ensures Distinct([n] + rest) <==> n !in rest && Distinct(rest)
  {
    var s := [n] + rest;
    if n !in rest && Distinct(rest) {
      forall i, j | 0 <= i < j < |s| ensures s[i] != s[j] {
        assert s[j] == rest[j - 1];
        if i > 0 { assert s[i] == rest[i - 1]; }
      }
    }
    if Distinct(s) {
      forall i, j | 0 <= i < j < |rest| ensures rest[i] != rest[j] {
        assert rest[i] == s[i + 1] && rest[j] == s[j + 1];
      }
      forall k | 0 <= k < |rest| ensures rest[k] != n {
        assert s[0] == n && rest[k] == s[k + 1];
        assert s[0] != s[k + 1];
      }
    }
  }

  /** Registers `names` for the flag at position `slot`, in order; `first`
      says `names` starts with the flag's first name, under which a default
      is recorded. The first name already taken is reported. */
  function Register<V>(reg: Registry<V>, slot: nat, f: Flag<V>, names: seq<string>, first: bool, show: V -> string): (r: Outcome<Registry<V>>)
    ensures r.Ok? <==> Distinct(names) && Fresh(names, reg.index)
    ensures r.Fail? ==>
              && r.error.Repeat?
              && r.error.name in names
              && (r.error.name in reg.index || multiset(names)[r.error.name] >= 2)
    ensures r.Fail? ==> exists k :: FirstRepeat(names, reg.index, k) && r.error == Repeat(names[k])
    decreases names
  {
    if |names| == 0 then Ok(reg)
    else
      var n := names[0];
      DistinctCons(n, names[1..]);
      assert names == [n] + names[1..];
      if n in reg.index then
        assert FirstRepeat(names, reg.index, 0);
        Fail(Repeat(n))
      else
        var values := if f.isAssigned && first then reg.values[n := show(f.value)] else reg.values;
        var r := Register(reg.(index := reg.index[n := slot], values := values), slot, f, names[1..], false, show);
        if r.Fail? then
          FirstRepeatLift(n, names[1..], reg.index, slot, r.error);
          r
        else r
  }

  /** Position `k` holds the name registration reports: every earlier name is
      distinct and free, and `names[k]` is taken or occurred earlier. */
  predicate FirstRepeat(names: seq<string>, index: map<string, nat>, k: int) {
    && 0 <= k < |names|
    && Distinct(names[..k])
    && Fresh(names[..k], index)
    && (names[k] in index || names[k] in names[..k])
  }

  /** There is at most one first repeat, so the reported name is determined. */
  lemma FirstRepeatUnique(names: seq<string>, index: map<string, nat>, j: int, k: int)
    requires FirstRepeat(names, index, j) && FirstRepeat(names, index, k)
    ensures j == k
  {
  }

  /** A first repeat of the rest, registered after a free name `n`, is a
      first repeat of the whole list one position later. */
  lemma FirstRepeatLift(n: string, rest: seq<string>, index: map<string, nat>, slot: nat, e: Error)
    requires n !in index
    requires exists k :: FirstRepeat(rest, index[n := slot], k) && e == Repeat(rest[k])
    ensures exists k :: FirstRepeat([n] + rest, index, k) && e == Repeat(([n] + rest)[k])
  {
    var k :| FirstRepeat(rest, index[n := slot], k) && e == Repeat(rest[k]);
    var names := [n] + rest;
    assert names[..k + 1] == [n] + rest[..k];
    assert names[k + 1] == rest[k];
    DistinctCons(n, rest[..k]);
    assert FirstRepeat(names, index, k + 1);
  }

  /** A successful registration adds exactly `names`, all pointing at `slot`,
      and touches the recorded values only to seed the first name. */
  lemma {:induction false} RegisterAdds<V>(reg: Registry<V>, slot: nat, f: Flag<V>, names: seq<string>, first: bool, show: V -> string, r: Registry<V>)
    requires Register(reg, slot, f, names, first, show) == Ok(r)
    ensures r.flags == reg.flags && r.skipRequired == reg.skipRequired
    ensures forall n :: n in r.index <==> n in reg.index || n in names
    ensures forall n :: n in reg.index ==> r.index[n] == reg.index[n]
    ensures forall n :: n in names ==> r.index[n] == slot
    ensures r.values == (if f.isAssigned && first && |names| > 0 then reg.values[names[0] := show(f.value)] else reg.values)
    decreases names
  {
    if |names| > 0 {
      var n := names[0];
      var values := if f.isAssigned && first then reg.values[n := show(f.value)] else reg.values;
      var reg' := reg.(index := reg.index[n := slot], values := values);
      RegisterAdds(reg', slot, f, names[1..], false, show, r);
      assert names == [n] + names[1..];
    }
  }

  /** Appends one flag and registers its names, short names first. */
  function AddFlag<V>(reg: Registry<V>, f: Flag<V>, show: V -> string): (r: Outcome<Registry<V>>)
    requires WellFormed(reg)
    ensures r.Ok? <==> Distinct(Names(f.tag)) && Fresh(Names(f.tag), reg.index)
    ensures r.Ok? ==> && r.value.flags == reg.flags + [f]
                      && WellFormed(r.value)
                      && (forall n :: n in r.value.index <==> n in reg.index || n in Names(f.tag))
                      && (Seeded(reg, show) ==> Seeded(r.value, show))
    ensures r.Fail? ==>
              && r.error.Repeat?
              && r.error.name in Names(f.tag)
              && (r.error.name in reg.index || multiset(Names(f.tag))[r.error.name] >= 2)
    ensures r.Fail? ==> exists k :: FirstRepeat(Names(f.tag), reg.index, k) && r.error == Repeat(Names(f.tag)[k])
  {
    var r := Register(reg.(flags := reg.flags + [f]), |reg.flags|, f, Names(f.tag), true, show);
    if r.Ok? then
      AddFlagKeepsInvariants(reg, f, show, r.value);
      r
    else r
  }

  lemma AddFlagKeepsInvariants<V>(reg: Registry<V>, f: Flag<V>, show: V -> string, r: Registry<V>)
    requires WellFormed(reg)
    requires Register(reg.(flags := reg.flags + [f]), |reg.flags|, f, Names(f.tag), true, show) == Ok(r)
    ensures r.flags == reg.flags + [f]
    ensures WellFormed(r)
    ensures forall n :: n in r.index <==> n in reg.index || n in Names(f.tag)
    ensures Seeded(reg, show) ==> Seeded(r, show)
  {
    RegisterAdds(reg.(flags := reg.flags + [f]), |reg.flags|, f, Names(f.tag), true, show, r);
    AddFlagWellFormed(reg, f, r);
    if Seeded(reg, show) {
      AddFlagSeeded(reg, f, show, r);
    }
  }

  lemma AddFlagWellFormed<V>(reg: Registry<V>, f: Flag<V>, r: Registry<V>)
    requires WellFormed(reg)
    requires Distinct(Names(f.tag))
    requires r.flags == reg.flags + [f]
    requires forall n :: n in r.index <==> n in reg.index || n in Names(f.tag)
    requires forall n :: n in reg.index ==> r.index[n] == reg.index[n]
    requires forall n :: n in Names(f.tag) ==> r.index[n] == |reg.flags|
    ensures WellFormed(r)
  {
    var slot := |reg.flags|;
    forall n | n in r.index
      ensures r.index[n] < |r.flags| && n in Names(r.flags[r.index[n]].tag)
    {
      if n !in reg.index {
        assert r.index[n] == slot;
      } else {
        assert r.flags[reg.index[n]] == reg.flags[reg.index[n]];
      }
    }
    forall i, n | 0 <= i < |r.flags| && n in Names(r.flags[i].tag)
      ensures n in r.index && r.index[n] == i
    {
      if i < slot {
        assert r.flags[i] == reg.flags[i];
      }
    }
    forall i | 0 <= i < |r.flags|
      ensures Distinct(Names(r.flags[i].tag))
    {
      if i < slot {
        assert r.flags[i] == reg.flags[i];
      }
    }
  }

  lemma AddFlagSeeded<V>(reg: Registry<V>, f: Flag<V>, show: V -> string, r: Registry<V>)
    requires WellFormed(reg) && Seeded(reg, show)
    requires r.flags == reg.flags + [f]
    requires forall n :: n in Names(f.tag) ==> n !in reg.index
    requires forall n :: n in reg.index ==> n in r.index && r.index[n] == reg.index[n]
    requires forall n :: n in Names(f.tag) ==> n in r.index && r.index[n] == |reg.flags|
    requires r.values == (if f.isAssigned && |Names(f.tag)| > 0 then reg.values[Names(f.tag)[0] := show(f.value)] else reg.values)
    ensures Seeded(r, show)
  {
    AddFlagValuesSound(reg, f, show, r);
    AddFlagValuesComplete(reg, f, show, r);
  }

  lemma AddFlagValuesSound<V>(reg: Registry<V>, f: Flag<V>, show: V -> string, r: Registry<V>)
    requires ValuesSound(reg, show)
    requires r.flags == reg.flags + [f]
    requires forall n :: n in reg.index ==> n in r.index && r.index[n] == reg.index[n]
    requires forall n :: n in Names(f.tag) ==> n in r.index && r.index[n] == |reg.flags|
    requires r.values == (if f.isAssigned && |Names(f.tag)| > 0 then reg.values[Names(f.tag)[0] := show(f.value)] else reg.values)
    ensures ValuesSound(r, show)
  {
    var names := Names(f.tag);
    var slot := |reg.flags|;
    forall n | n in r.values
      ensures n in r.index && r.index[n] < |r.flags|
              && r.flags[r.index[n]].isAssigned
              && |Names(r.flags[r.index[n]].tag)| > 0
              && Names(r.flags[r.index[n]].tag)[0] == n
              && r.values[n] == show(r.flags[r.index[n]].value)
    {
      if f.isAssigned && |names| > 0 && n == names[0] {
        assert r.index[n] == slot;
      } else {
        assert n in reg.values;
        assert r.flags[reg.index[n]] == reg.flags[reg.index[n]];
      }
    }
  }

  lemma AddFlagValuesComplete<V>(reg: Registry<V>, f: Flag<V>, show: V -> string, r: Registry<V>)
    requires ValuesComplete(reg)
    requires r.flags == reg.flags + [f]
    requires r.values == (if f.isAssigned && |Names(f.tag)| > 0 then reg.values[Names(f.tag)[0] := show(f.value)] else reg.values)
    ensures ValuesComplete(r)
  {
    var slot := |reg.flags|;
    forall i | 0 <= i < |r.flags| && r.flags[i].isAssigned && |Names(r.flags[i].tag)| > 0
      ensures Names(r.flags[i].tag)[0] in r.values
    {
      if i < slot {
        assert r.flags[i] == reg.flags[i];
      }
    }
  }

  /** `initFlagSet` over a record's fields: the first error at any depth
      aborts the whole build. */
  function Build<V>(fs: seq<Field<V>>, reg: Registry<V>, show: V -> string): (r: Outcome<Registry<V>>)
    requires WellFormed(reg)
    ensures r.Ok? ==> WellFormed(r.value) && reg.flags <= r.value.flags
    decreases fs
  {
    if |fs| == 0 then Ok(reg)
    else
      match fs[0]
      case NoTag => Build(fs[1..], reg, show)
      case Ignored => Build(fs[1..], reg, show)
      case BadTag(m) => Fail(TagError(m))
      case Nested(sub) =>
        var r :- Build(sub, reg, show);
        Build(fs[1..], r, show)
      case Leaf(f) =>
        var r :- AddFlag(reg, f, show);
        Build(fs[1..], r, show)
  }

  /** The fields that decide the build, in pre-order: nested records are
      replaced by their own fields, untagged and ignored fields vanish. */
  function Flatten<V>(fs: seq<Field<V>>): (items: seq<Field<V>>)
    ensures forall i :: 0 <= i < |items| ==> items[i].Leaf? || items[i].BadTag?
    decreases fs
  {
    if |fs| == 0 then []
    else
      var head := match fs[0]
        case Nested(sub) => Flatten(sub)
        case NoTag => []
        case Ignored => []
        case _ => [fs[0]];
      head + Flatten(fs[1..])
  }

  /** The flags of the bound fields, in order. */
  function FlagsOf<V>(items: seq<Field<V>>): (flags: seq<Flag<V>>) {
    if |items| == 0 then []
    else (if items[0].Leaf? then [items[0].flag] else []) + FlagsOf(items[1..])
  }

  /** Every name the flags declare, flag after flag. */
  function AllNames<V>(flags: seq<Flag<V>>): (names: seq<string>) {
    if |flags| == 0 then [] else Names(flags[0].tag) + AllNames(flags[1..])
  }

  predicate NoBadTag<V>(items: seq<Field<V>>) {
    forall i :: 0 <= i < |items| ==> !items[i].BadTag?
  }

  /** No name of `a` is in `b`. */
  predicate Disjoint(a: seq<string>, b: seq<string>) {
    forall n :: n in a ==> n !in b
  }

  lemma DistinctConcat(a: seq<string>, b: seq<string>)
    ensures Distinct(a + b) <==> Distinct(a) && Distinct(b) && Disjoint(a, b)
  {
    if Distinct(a) && Distinct(b) && Disjoint(a, b) {
      forall i, j | 0 <= i < j < |a + b|
        ensures (a + b)[i] != (a + b)[j]
      {
        if i < |a| && j >= |a| {
          assert (a + b)[i] in a && (a + b)[j] == b[j - |a|];
        }
      }
    }
    if Distinct(a + b) {
      forall i, j | 0 <= i < j < |a|
        ensures a[i] != a[j]
      {
        assert a[i] == (a + b)[i] && a[j] == (a + b)[j];
      }
      forall i, j | 0 <= i < j < |b|
        ensures b[i] != b[j]
      {
        assert b[i] == (a + b)[i + |a|] && b[j] == (a + b)[j + |a|];
      }
      forall i, j | 0 <= i < |a| && 0 <= j < |b|
        ensures a[i] != b[j]
      {
        assert a[i] == (a + b)[i] && b[j] == (a + b)[|a| + j];
      }
    }
  }

  /** Building a concatenation builds the first part, then the second part
      on the result. */
  lemma {:induction false} BuildConcat<V>(a: seq<Field<V>>, b: seq<Field<V>>, reg: Registry<V>, show: V -> string)
    requires WellFormed(reg)
    ensures Build(a + b, reg, show) == (var r :- Build(a, reg, show); Build(b, r, show))
    decreases a
  {
    if |a| == 0 {
      assert a + b == b;
    } else {
      assert (a + b)[0] == a[0] && (a + b)[1..] == a[1..] + b;
      match a[0]
      case NoTag => BuildConcat(a[1..], b, reg, show);
      case Ignored => BuildConcat(a[1..], b, reg, show);
      case BadTag(m) =>
      case Nested(sub) =>
        var r := Build(sub, reg, show);
        if r.Ok? {
          BuildConcat(a[1..], b, r.value, show);
        }
      case Leaf(f) =>
        var r := AddFlag(reg, f, show);
        if r.Ok? {
          BuildConcat(a[1..], b, r.value, show);
        }
    }
  }

  /** Building the field tree is building its pre-order flattening: nested
      records contribute their fields in place, at any depth. */
  lemma {:induction false} BuildFlattens<V>(fs: seq<Field<V>>, reg: Registry<V>, show: V -> string)
    requires WellFormed(reg)
    ensures Build(fs, reg, show) == Build(Flatten(fs), reg, show)
    decreases fs
  {
    if |fs| > 0 {
      var rest := Flatten(fs[1..]);
      match fs[0]
      case NoTag =>
        assert Flatten(fs) == rest;
        BuildFlattens(fs[1..], reg, show);
      case Ignored =>
        assert Flatten(fs) == rest;
        BuildFlattens(fs[1..], reg, show);
      case BadTag(m) =>
        assert Flatten(fs) == [fs[0]] + rest;
      case Nested(sub) =>
        assert Flatten(fs) == Flatten(sub) + rest;
        BuildConcat(Flatten(sub), rest, reg, show);
        BuildFlattens(sub, reg, show);
        var r := Build(sub, reg, show);
        if r.Ok? {
          BuildFlattens(fs[1..], r.value, show);
        }
      case Leaf(f) =>
        assert Flatten(fs) == [fs[0]] + rest;
        assert ([fs[0]] + rest)[1..] == rest;
        var r := AddFlag(reg, f, show);
        if r.Ok? {
          BuildFlattens(fs[1..], r.value, show);
        }
    }
  }

  /** None of `names` is taken in `index`. */
  predicate Fresh(names: seq<string>, index: map<string, nat>) {
    forall n :: n in names ==> n !in index
  }

  lemma FreshConcat(a: seq<string>, b: seq<string>, index: map<string, nat>)
    ensures Fresh(a + b, index) <==> Fresh(a, index) && Fresh(b, index)
  {
  }

  lemma FreshExtend(names: seq<string>, index: map<string, nat>, index': map<string, nat>, added: seq<string>)
    requires forall n :: n in index' <==> n in index || n in added
    ensures Fresh(names, index') <==> Fresh(names, index) && Disjoint(added, names)
  {
  }

  predicate IsFlat<V>(items: seq<Field<V>>) {
    forall i :: 0 <= i < |items| ==> items[i].Leaf? || items[i].BadTag?
  }

  lemma NoBadTagCons<V>(items: seq<Field<V>>)
    requires |items| > 0 && !items[0].BadTag?
    ensures NoBadTag(items) <==> NoBadTag(items[1..])
  {
    if NoBadTag(items[1..]) {
      forall i | 0 <= i < |items| ensures !items[i].BadTag? {
        if i > 0 { assert items[i] == items[1..][i - 1]; }
      }
    }
  }

  lemma FlatLeafNames<V>(items: seq<Field<V>>, f: Flag<V>)
    requires |items| > 0 && items[0] == Leaf(f)
    ensures FlagsOf(items) == [f] + FlagsOf(items[1..])
    ensures AllNames(FlagsOf(items)) == Names(f.tag) + AllNames(FlagsOf(items[1..]))
  {
    assert ([f] + FlagsOf(items[1..]))[1..] == FlagsOf(items[1..]);
  }

  /** On flat input the build succeeds exactly when no field failed to
      construct and every declared name is new and declared once. */
  lemma {:induction false} BuildFlatOk<V>(items: seq<Field<V>>, reg: Registry<V>, show: V -> string)
    requires WellFormed(reg) && IsFlat(items)
    ensures var names := AllNames(FlagsOf(items));
            Build(items, reg, show).Ok? <==> NoBadTag(items) && Distinct(names) && Fresh(names, reg.index)
    decreases items
  {
    if |items| > 0 {
      var rest := items[1..];
      FlatRest(items);
      match items[0]
      case BadTag(m) =>
      case Leaf(f) =>
        var names := Names(f.tag);
        var restNames := AllNames(FlagsOf(rest));
        FlatLeafNames(items, f);
        NoBadTagCons(items);
        DistinctConcat(names, restNames);
        FreshConcat(names, restNames, reg.index);
        var r := AddFlag(reg, f, show);
        if r.Ok? {
          BuildFlatOk(rest, r.value, show);
          FreshExtend(restNames, reg.index, r.value.index, names);
        }
    }
  }

  /** A successful build on flat input appends the flags in order. */
  lemma {:induction false} BuildFlatAppends<V>(items: seq<Field<V>>, reg: Registry<V>, show: V -> string)
    requires WellFormed(reg) && IsFlat(items)
    requires Build(items, reg, show).Ok?
    ensures Build(items, reg, show).value.flags == reg.flags + FlagsOf(items)
    decreases items
  {
    if |items| > 0 {
      var rest := items[1..];
      FlatRest(items);
      assert items[0].Leaf? && AddFlag(reg, items[0].flag, show).Ok?;
      var r := LeafStep(items, reg, show);
      BuildFlatAppends(rest, r, show);
      assert FlagsOf(items) == [items[0].flag] + FlagsOf(rest);
      AppendAssoc(reg.flags, [items[0].flag], FlagsOf(rest));
    }
  }

  /** The first step of a successful build on flat input adds its leaf. */
  lemma LeafStep<V>(items: seq<Field<V>>, reg: Registry<V>, show: V -> string) returns (r: Registry<V>)
    requires WellFormed(reg) && |items| > 0 && items[0].Leaf?
    requires AddFlag(reg, items[0].flag, show).Ok?
    ensures AddFlag(reg, items[0].flag, show) == Ok(r)
    ensures r.flags == reg.flags + [items[0].flag] && WellFormed(r)
    ensures Build(items, reg, show) == Build(items[1..], r, show)
  {
    r := AddFlag(reg, items[0].flag, show).value;
  }

  lemma FlatRest<V>(items: seq<Field<V>>)
    requires |items| > 0 && IsFlat(items)
    ensures IsFlat(items[1..])
  {
    forall i | 0 <= i < |items| - 1 ensures items[1..][i].Leaf? || items[1..][i].BadTag? {
      assert items[1..][i] == items[i + 1];
    }
  }

  /** What a failed build may report about `items` declaring `names` over a
      registry whose index is `index`: a bad field that is there, or a name
      declared twice or already taken. */
  ghost predicate FailExplained<V>(e: Error, items: seq<Field<V>>, names: seq<string>, index: map<string, nat>) {
    && (e.Repeat? || e.TagError?)
    && (e.Repeat? ==> e.name in names && (e.name in index || multiset(names)[e.name] >= 2))
    && (e.TagError? ==> BadTag(e.msg) in items)
  }

  /** A failed build on flat input reports either a bad field that is there
      or a name that really is declared twice (or was already taken). */
  lemma {:induction false} BuildFlatFail<V>(items: seq<Field<V>>, reg: Registry<V>, show: V -> string)
    requires WellFormed(reg) && IsFlat(items)
    ensures var r := Build(items, reg, show);
            r.Fail? ==> FailExplained(r.error, items, AllNames(FlagsOf(items)), reg.index)
    decreases items
  {
    if |items| > 0 {
      var rest := items[1..];
      FlatRest(items);
      match items[0]
      case BadTag(m) =>
        assert items[0] in items;
      case Leaf(f) =>
        FlatLeafNames(items, f);
        var r := AddFlag(reg, f, show);
        if r.Ok? {
          BuildFlatFail(rest, r.value, show);
          var b := Build(rest, r.value, show);
          if b.Fail? {
            FailLift(b.error, items, Names(f.tag), AllNames(FlagsOf(rest)), reg.index, r.value.index);
          }
        } else {
          FailFirst(r.error, items, Names(f.tag), AllNames(FlagsOf(rest)), reg.index);
        }
    }
  }

  /** An error explained for the rest of the fields is explained for the
      whole list, once the first flag's names are added. */
  lemma FailLift<V>(e: Error, items: seq<Field<V>>, first: seq<string>, restNames: seq<string>,
                    index: map<string, nat>, index': map<string, nat>)
    requires |items| > 0
    requires FailExplained(e, items[1..], restNames, index')
    requires forall n :: n in index' <==> n in index || n in first
    ensures FailExplained(e, items, first + restNames, index)
  {
    if e.Repeat? {
      CountConcat(first, restNames, e.name);
    } else {
      assert e.TagError?;
      var k :| 0 <= k < |items[1..]| && items[1..][k] == BadTag(e.msg);
      assert items[k + 1] == BadTag(e.msg);
    }
  }

  /** A repeat found among the first flag's names is explained for the
      whole list. */
  lemma FailFirst<V>(e: Error, items: seq<Field<V>>, first: seq<string>, restNames: seq<string>, index: map<string, nat>)
    requires e.Repeat? && e.name in first && (e.name in index || multiset(first)[e.name] >= 2)
    ensures FailExplained(e, items, first + restNames, index)
  {
    CountConcat(first, restNames, e.name);
  }

  lemma CountConcat(a: seq<string>, b: seq<string>, x: string)
    ensures multiset(a + b)[x] == multiset(a)[x] + multiset(b)[x]
    ensures x in a + b <==> x in a || x in b
  {
    assert multiset(a + b) == multiset(a) + multiset(b);
  }

  /** A successful build keeps the recorded values exactly the defaults. */
  lemma {:induction false} BuildSeeded<V>(fs: seq<Field<V>>, reg: Registry<V>, show: V -> string)
    requires WellFormed(reg) && Seeded(reg, show)
    requires Build(fs, reg, show).Ok?
    ensures Seeded(Build(fs, reg, show).value, show)
    decreases fs
  {
    if |fs| > 0 {
      match fs[0]
      case NoTag => BuildSeeded(fs[1..], reg, show);
      case Ignored => BuildSeeded(fs[1..], reg, show);
      case Nested(sub) =>
        BuildSeeded(sub, reg, show);
        BuildSeeded(fs[1..], Build(sub, reg, show).value, show);
      case Leaf(f) =>
        BuildSeeded(fs[1..], AddFlag(reg, f, show).value, show);
    }
  }

  /** The registry built from a record: it exists exactly when no field's
      tag is bad and no name is declared twice anywhere in the flattened
      record; it then lists the flags in pre-order, every name maps to the
      flag declaring it, and defaults are recorded under first names only.
      A repeated name is reported only when it really is declared twice. */
  lemma BuildRegistry<V>(fs: seq<Field<V>>, show: V -> string)
    ensures var r := Build(fs, Empty(), show);
            var flat := FlagsOf(Flatten(fs));
            && (r.Ok? <==> NoBadTag(Flatten(fs)) && Distinct(AllNames(flat)))
            && (r.Ok? ==> r.value.flags == flat && WellFormed(r.value) && Seeded(r.value, show))
            && (r.Fail? ==> r.error.Repeat? || r.error.TagError?)
            && (r.Fail? && r.error.Repeat? ==> multiset(AllNames(flat))[r.error.name] >= 2)
            && (r.Fail? && r.error.TagError? ==> BadTag(r.error.msg) in Flatten(fs))
  {
    var e: Registry<V> := Empty();
    BuildFlattens(fs, e, show);
    BuildFlatOk(Flatten(fs), e, show);
    if Build(Flatten(fs), e, show).Ok? {
      BuildFlatAppends(Flatten(fs), e, show);
    }
    BuildFlatFail(Flatten(fs), e, show);
    if Build(fs, e, show).Ok? {
      BuildSeeded(fs, e, show);
    }
  }
}
