/** The data the binder works on: a flag's parsed tag, the flag descriptor
    with its mutable state, the record's field tree, the registry built from
    it, and the coercion capability the binder is parameterised by. */
module Flags {
  import opened Wrappers

  /** What a `cli` tag declares: short names ("-x"), long names ("--name")
      and the required and help markers. */
  datatype Tag = Tag(shortNames: seq<string>, longNames: seq<string>, required: bool, isHelp: bool)

  /** Every name of a tag, short names first (the order of cli.go:117). */
  function Names(t: Tag): (names: seq<string>) {
    t.shortNames + t.longNames
  }

  /** A bound field: its tag, its current value, whether it counts as
      assigned (it had a default or has been set), and its last coercion
      error. */
  datatype Flag<V> = Flag(tag: Tag, value: V, isAssigned: bool, err: Option<string>)

  /** One field of a configuration record, as the tag parser and the flag
      constructor classify it. */
  datatype Field<V> =
    /** No `cli` tag: not bound. */
    | NoTag
    /** An empty tag on a struct-typed field: its fields are flattened into
        the enclosing registry. */
    | Nested(fields: seq<Field<V>>)
    /** The flag constructor declined to bind the field. */
    | Ignored
    /** The flag constructor failed (malformed tag or bad default). */
    | BadTag(msg: string)
    /** A bound flag, as the flag constructor returned it. */
    | Leaf(flag: Flag<V>)

  /** The flag set: the flags in declaration order, every name's position in
      `flags`, the last string form recorded per name, and whether a help
      flag switched off the required check. */
  datatype Registry<V> = Registry(
    flags: seq<Flag<V>>,
    index: map<string, nat>,
    values: map<string, string>,
    skipRequired: bool)

  function Empty<V>(): (r: Registry<V>)
    ensures WellFormed(r)
  {
    Registry([], map[], map[], false)
  }

  /** What the setter hands back: the flag's new value, assigned mark and
      coercion error, and a fatal error that stops parsing. */
  datatype SetOutcome<V> = SetOutcome(value: V, isAssigned: bool, err: Option<string>, fatal: Option<string>)

  /** The capabilities the binder takes from the rest of the package:
      `setter` (the flag's `set` method: flag, name used, raw value), the `%v` rendering of a value,
      `getBool` and the display name `name()` of a flag. */
  datatype Coercer<!V> = Coercer(
    setter: (Flag<V>, string, string) -> SetOutcome<V>,
    show: V -> string,
    getBool: Flag<V> -> bool,
    display: Flag<V> -> string)

  /** The flag after the setter ran; its tag is untouched. */
  function Apply<V>(f: Flag<V>, o: SetOutcome<V>): (g: Flag<V>)
    ensures g.tag == f.tag
  {
    f.(value := o.value, isAssigned := o.isAssigned, err := o.err)
  }

  predicate Distinct(s: seq<string>) {
    forall i, j :: 0 <= i < j < |s| ==> s[i] != s[j]
  }

  /** Every indexed name points at a flag that declares it. */
  predicate IndexValid<V>(reg: Registry<V>) {
    forall n :: n in reg.index ==> reg.index[n] < |reg.flags|
  }

  /** The registry's uniqueness invariant: each flag's names are distinct, the
      index maps exactly the declared names, each to the flag declaring it. */
  predicate WellFormed<V>(reg: Registry<V>) {
    && (forall n :: n in reg.index ==> reg.index[n] < |reg.flags| && n in Names(reg.flags[reg.index[n]].tag))
    && (forall i, n :: 0 <= i < |reg.flags| && n in Names(reg.flags[i].tag) ==> n in reg.index && reg.index[n] == i)
    && (forall i :: 0 <= i < |reg.flags| ==> Distinct(Names(reg.flags[i].tag)))
  }

  /** The recorded values are exactly the defaults: one entry per assigned
      flag that has a name, under its first name, holding the string form of
      its value. */
  predicate Seeded<V>(reg: Registry<V>, show: V -> string) {
    ValuesSound(reg, show) && ValuesComplete(reg)
  }

  /** Every recorded value is the default of the assigned flag whose first
      name it is recorded under. */
  predicate ValuesSound<V>(reg: Registry<V>, show: V -> string) {
    forall n :: n in reg.values ==>
      && n in reg.index && reg.index[n] < |reg.flags|
      && reg.flags[reg.index[n]].isAssigned
      && |Names(reg.flags[reg.index[n]].tag)| > 0
      && Names(reg.flags[reg.index[n]].tag)[0] == n
      && reg.values[n] == show(reg.flags[reg.index[n]].value)
  }

  /** Every assigned flag with a name has a value under its first name. */
  predicate ValuesComplete<V>(reg: Registry<V>) {
    forall i :: 0 <= i < |reg.flags| && reg.flags[i].isAssigned && |Names(reg.flags[i].tag)| > 0 ==>
      Names(reg.flags[i].tag)[0] in reg.values
  }

  /** In a well-formed registry a name belongs to exactly one flag. */
  lemma UniqueOwner<V>(reg: Registry<V>, i: nat, j: nat, n: string)
    requires WellFormed(reg)
    requires i < |reg.flags| && j < |reg.flags|
    requires n in Names(reg.flags[i].tag) && n in Names(reg.flags[j].tag)
    ensures i == j && reg.index[n] == i
  {
    assert reg.index[n] == i;
    assert reg.index[n] == j;
  }
}
