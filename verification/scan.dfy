/** The argument scanner of `parse`: one left-to-right pass over the argument
    vector against a built registry, then the required-flag check. */
module Scanner {
  import opened Strs
  import opened Wrappers
  import opened Errors
  import opened Flags
  import opened Builder

  /** How many of the leading tokens are not dash tokens: the values that
      the preceding flag token collects. */
  function ValueRun(args: seq<string>): (k: nat)
    ensures k <= |args|
  {
    if |args| == 0 || IsDash(args[0]) then 0 else 1 + ValueRun(args[1..])
  }

  /** The run is exactly the non-dash tokens before the first dash token. */
  lemma {:induction false} ValueRunSpec(args: seq<string>)
    ensures forall i :: 0 <= i < ValueRun(args) ==> !IsDash(args[i])
    ensures ValueRun(args) < |args| ==> IsDash(args[ValueRun(args)])
    decreases |args|
  {
    if |args| > 0 && !IsDash(args[0]) {
      ValueRunSpec(args[1..]);
      forall i | 1 <= i < ValueRun(args) ensures !IsDash(args[i]) {
        assert args[i] == args[1..][i - 1];
      }
    }
  }

  /** Scanning never changes which flags exist, their names or the index. */
  predicate SameShape<V>(a: Registry<V>, b: Registry<V>) {
    && b.index == a.index
    && |b.flags| == |a.flags|
    && (forall i :: 0 <= i < |a.flags| ==> b.flags[i].tag == a.flags[i].tag)
    && b.skipRequired == a.skipRequired
  }

  /** Every recorded value of `b` was already in `a` or is under a known,
      dash-prefixed name. */
  predicate ValuesFrom<V>(a: Registry<V>, b: Registry<V>) {
    forall k :: k in b.values ==> k in a.values || (k in a.index && IsDash(k))
  }

  /** Calls the flag's setter and writes the flag back; the string form of
      the new value is recorded under `name` unless coercion failed. */
  function Assign<V>(reg: Registry<V>, name: string, v: string, co: Coercer<V>): (r: Outcome<Registry<V>>)
    requires IndexValid(reg) && name in reg.index
    ensures r.Ok? ==> SameShape(reg, r.value)
    ensures var o := co.setter(reg.flags[reg.index[name]], name, v);
            && (r.Fail? <==> o.fatal.Some?)
            && (r.Fail? ==> r.error == SetFailed(o.fatal.value))
            && (r.Ok? ==> r.value.flags[reg.index[name]] == Apply(reg.flags[reg.index[name]], o))
            && (r.Ok? && o.err.None? ==> name in r.value.values && r.value.values[name] == co.show(o.value))
            && (r.Ok? && o.err.Some? ==> r.value.values == reg.values)
    ensures r.Ok? ==> forall i :: 0 <= i < |reg.flags| && i != reg.index[name] ==> r.value.flags[i] == reg.flags[i]
    ensures r.Ok? ==> forall k :: k != name ==> (k in r.value.values <==> k in reg.values)
    ensures r.Ok? ==> forall k :: k != name && k in reg.values ==> r.value.values[k] == reg.values[k]
  {
    var i := reg.index[name];
    var o := co.setter(reg.flags[i], name, v);
    if o.fatal.Some? then Fail(SetFailed(o.fatal.value))
    else
      var fl := Apply(reg.flags[i], o);
      Ok(reg.(flags := reg.flags[i := fl],
              values := if fl.err.None? then reg.values[name := co.show(fl.value)] else reg.values))
  }

  /** The values of a flag token: the parts after `=`, then the trailing
      tokens. */
  function ValueList(tok: string, trailing: seq<string>): (vs: seq<string>) {
    Split(tok, '=')[1..] + trailing
  }

  /** A known flag takes at most one value; a coercion error is fatal only
      on a flag marked as assigned. */
  function SetKnown<V>(reg: Registry<V>, name: string, values: seq<string>, co: Coercer<V>): (r: Outcome<Registry<V>>)
    requires IndexValid(reg) && name in reg.index
    ensures r.Ok? ==> SameShape(reg, r.value)
    ensures |values| > 1 ==> r == Fail(TooMany(|values|, name))
    ensures r.Fail? && r.error.TooMany? ==> |values| > 1
    ensures |values| <= 1 ==>
              var i := reg.index[name];
              var o := co.setter(reg.flags[i], name, if |values| == 0 then "" else values[0]);
              && (o.fatal.Some? ==> r == Fail(SetFailed(o.fatal.value)))
              && (o.fatal.None? && o.err.Some? && o.isAssigned ==>
                    r == Fail(AssignedInvalid(co.display(Apply(reg.flags[i], o)), o.err.value)))
              && (o.fatal.None? && !(o.err.Some? && o.isAssigned) ==>
                    && r.Ok? && r.value.flags[i] == Apply(reg.flags[i], o)
                    && (o.err.None? ==> name in r.value.values && r.value.values[name] == co.show(o.value))
                    && (o.err.Some? ==> r.value.values == reg.values))
    ensures r.Ok? ==> forall j :: 0 <= j < |reg.flags| && j != reg.index[name] ==> r.value.flags[j] == reg.flags[j]
  {
    if |values| > 1 then Fail(TooMany(|values|, name))
    else
      var r :- Assign(reg, name, if |values| == 0 then "" else values[0], co);
      var fl := r.flags[reg.index[name]];
      if fl.err.Some? && fl.isAssigned then Fail(AssignedInvalid(co.display(fl), fl.err.value))
      else Ok(r)
  }

  /** A single-dash token that is not a known name: each character is a
      short flag set with no value; the first unknown one aborts. */
  function Group<V>(chars: string, reg: Registry<V>, co: Coercer<V>): (r: Outcome<Registry<V>>)
    requires IndexValid(reg)
    ensures r.Ok? ==> SameShape(reg, r.value) && ValuesFrom(reg, r.value)
    ensures r.Fail? ==> || r.error.SetFailed?
                        || (&& r.error.Undefined?
                            && r.error.name !in reg.index
                            && |r.error.name| == 2 && r.error.name[0] == '-' && r.error.name[1] in chars)
    ensures r.Fail? && r.error.Undefined? ==>
              exists k :: && 0 <= k < |chars| && r.error.name == "-" + [chars[k]]
                          && forall j :: 0 <= j < k ==> "-" + [chars[j]] in reg.index
    ensures |chars| > 0 && "-" + [chars[0]] in reg.index ==>
              var name := "-" + [chars[0]];
              var o := co.setter(reg.flags[reg.index[name]], name, "");
              o.fatal.Some? ==> r == Fail(SetFailed(o.fatal.value))
    decreases chars
  {
    if |chars| == 0 then Ok(reg)
    else
      var name := "-" + [chars[0]];
      if name !in reg.index then Fail(Undefined(name))
      else
        var r :- Assign(reg, name, "", co);
        Group(chars[1..], r, co)
  }

  /** One flag token `tok` with the non-dash tokens that follow it. */
  function Step<V>(tok: string, trailing: seq<string>, reg: Registry<V>, co: Coercer<V>): (r: Outcome<Registry<V>>)
    requires IndexValid(reg) && IsDash(tok)
    ensures r.Ok? ==> SameShape(reg, r.value) && ValuesFrom(reg, r.value)
  {
    var head := Split(tok, '=')[0];
    assert IsDash(head) by {
      assert head[0] == tok[0];
    }
    if head in reg.index then SetKnown(reg, head, ValueList(tok, trailing), co)
    else if IsDoubleDash(head) then Fail(Undefined(head))
    else Group(TrimDash(head), reg, co)
  }

  /** The scan loop of `parse`: non-dash tokens are skipped; a dash token
      takes every non-dash token after it as its values and the scan resumes
      after them; the first fatal error stops the scan. */
  function Scan<V>(args: seq<string>, reg: Registry<V>, co: Coercer<V>): (r: Outcome<Registry<V>>)
    requires IndexValid(reg)
    ensures r.Ok? ==> SameShape(reg, r.value) && ValuesFrom(reg, r.value)
    decreases |args|
  {
    if |args| == 0 then Ok(reg)
    else if !IsDash(args[0]) then Scan(args[1..], reg, co)
    else
      var k := ValueRun(args[1..]);
      var r :- Step(args[0], args[1..1 + k], reg, co);
      Scan(args[1 + k..], r, co)
  }

  predicate IsMissing<V>(f: Flag<V>) {
    f.tag.required && !f.isAssigned
  }

  /** The positions from `i` on of the required flags never assigned, in
      increasing order. */
  function MissingFrom<V>(flags: seq<Flag<V>>, i: nat): (m: seq<nat>)
    requires i <= |flags|
    ensures forall k :: 0 <= k < |m| ==> i <= m[k] < |flags| && IsMissing(flags[m[k]])
    ensures forall j :: i <= j < |flags| && IsMissing(flags[j]) ==> j in m
    ensures forall a, b :: 0 <= a < b < |m| ==> m[a] < m[b]
    decreases |flags| - i
  {
    if i == |flags| then []
    else (if IsMissing(flags[i]) then [i] else []) + MissingFrom(flags, i + 1)
  }

  predicate HelpOn<V>(f: Flag<V>, co: Coercer<V>) {
    f.tag.isHelp && co.getBool(f)
  }

  /** Some help flag reads true. */
  predicate HelpRequested<V>(flags: seq<Flag<V>>, co: Coercer<V>) {
    exists i :: 0 <= i < |flags| && HelpOn(flags[i], co)
  }

  /** No required flag is left unassigned. */
  predicate NoneMissing<V>(flags: seq<Flag<V>>) {
    forall i :: 0 <= i < |flags| ==> !IsMissing(flags[i])
  }

  /** The loop looking for a help flag that reads true. */
  function AnyHelp<V>(flags: seq<Flag<V>>, co: Coercer<V>): (b: bool)
    ensures b <==> HelpRequested(flags, co)
  {
    if |flags| == 0 then false
    else if HelpOn(flags[0], co) then true
    else
      var b := AnyHelp(flags[1..], co);
      assert forall i :: 1 <= i < |flags| ==> flags[i] == flags[1..][i - 1];
      b
  }

  /** The display names of the flags at positions `m`. */
  function DisplayAt<V>(flags: seq<Flag<V>>, m: seq<nat>, co: Coercer<V>): (names: seq<string>)
    requires forall k :: 0 <= k < |m| ==> m[k] < |flags|
    ensures |names| == |m|
    ensures forall k :: 0 <= k < |m| ==> names[k] == co.display(flags[m[k]])
  {
    seq(|m|, k requires 0 <= k < |m| => co.display(flags[m[k]]))
  }

  /** After the scan: every required flag never assigned is reported, in
      declaration order, in one error -- unless a help flag reads true. */
  function Finish<V>(reg: Registry<V>, co: Coercer<V>): (r: Outcome<Registry<V>>)
    ensures r.Ok? <==> NoneMissing(reg.flags) || HelpRequested(reg.flags, co)
    ensures r.Ok? ==> r.value == reg.(skipRequired := HelpRequested(reg.flags, co))
    ensures r.Fail? ==> r.error == RequiredMissing(DisplayAt(reg.flags, MissingFrom(reg.flags, 0), co))
  {
    var m := MissingFrom(reg.flags, 0);
    var help := AnyHelp(reg.flags, co);
    NoneMissingIsEmpty(reg.flags);
    if |m| > 0 && !help then Fail(RequiredMissing(DisplayAt(reg.flags, m, co)))
    else Ok(reg.(skipRequired := help))
  }

  lemma NoneMissingIsEmpty<V>(flags: seq<Flag<V>>)
    ensures NoneMissing(flags) <==> |MissingFrom(flags, 0)| == 0
  {
    var m := MissingFrom(flags, 0);
    if |m| > 0 {
      assert IsMissing(flags[m[0]]);
    }
  }

  /** `parse`: build the registry, scan the arguments, check required flags.
      A build error or a fatal scan error is returned before the check. */
  function Parse<V>(fields: seq<Field<V>>, args: seq<string>, co: Coercer<V>): (r: Outcome<Registry<V>>)
    ensures Build(fields, Empty(), co.show).Fail? ==> r == Build(fields, Empty(), co.show).PropagateFailure()
    ensures var b := Build(fields, Empty(), co.show);
            b.Ok? && Scan(args, b.value, co).Fail? ==> r == Scan(args, b.value, co).PropagateFailure()
    ensures var b := Build(fields, Empty(), co.show);
            r.Ok? <==> && b.Ok? && Scan(args, b.value, co).Ok?
                       && var flags := Scan(args, b.value, co).value.flags;
                          NoneMissing(flags) || HelpRequested(flags, co)
  {
    var reg :- Build(fields, Empty(), co.show);
    var scanned :- Scan(args, reg, co);
    Finish(scanned, co)
  }
}
