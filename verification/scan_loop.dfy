/** The scan of `parse` as the index loops it is written with: an outer loop
    over the argument positions, an inner loop collecting the values of a
    flag token, and a loop over the characters of a group of short flags.
    Each is proved to compute the recursive definitions of the scanner. */
module ScanLoop {
  import opened Strs
  import opened Wrappers
  import opened Errors
  import opened Flags
  import opened Scanner
  import opened ScanProps
  import opened Seqs

  /** The loop over the characters of a group: every character names a short
      flag that is set with no value; the first unknown one or the first
      fatal setter error stops it. */
  method SetGroup<V>(chars: string, reg: Registry<V>, co: Coercer<V>) returns (r: Outcome<Registry<V>>)
    requires IndexValid(reg)
    ensures r == Group(chars, reg, co)
  {
    var cur := reg;
    var n := 0;
    while n < |chars|
      invariant 0 <= n <= |chars|
      invariant IndexValid(cur)
      invariant Group(chars, reg, co) == Group(chars[n..], cur, co)
      decreases |chars| - n
    {
      var tmp := "-" + [chars[n]];
      assert chars[n..][0] == chars[n] && chars[n..][1..] == chars[n + 1..];
      if tmp !in cur.index {
        return Fail(Undefined(tmp));
      }
      var a := Assign(cur, tmp, "", co);
      if a.Fail? {
        return a;
      }
      cur := a.value;
      n := n + 1;
    }
    assert chars[n..] == [];
    return Ok(cur);
  }

  /** One flag token with its collected values: split off the inline values,
      look the head up, and either set the known flag, reject an unknown long
      name or treat the token as a group of short flags. */
  method StepToken<V>(arg: string, values: seq<string>, reg: Registry<V>, co: Coercer<V>) returns (r: Outcome<Registry<V>>)
    requires IndexValid(reg) && IsDash(arg)
    ensures r == Step(arg, values, reg, co)
  {
    var strs := Split(arg, '=');
    var head := strs[0];
    if head !in reg.index {
      if IsDoubleDash(head) {
        return Fail(Undefined(head));
      }
      r := SetGroup(TrimDash(head), reg, co);
      return;
    }
    var all := strs[1..] + values;
    if |all| > 1 {
      return Fail(TooMany(|all|, head));
    }
    var a := Assign(reg, head, if |all| == 0 then "" else all[0], co);
    if a.Fail? {
      return a;
    }
    var fl := a.value.flags[reg.index[head]];
    if fl.err.Some? && fl.isAssigned {
      return Fail(AssignedInvalid(co.display(fl), fl.err.value));
    }
    return a;
  }

  /** The scan loop of `parse` over argument positions. A dash token at
      position `i` collects the non-dash tokens after it, and the loop
      resumes after the last of them. */
  method ScanArgs<V>(args: seq<string>, reg: Registry<V>, co: Coercer<V>) returns (r: Outcome<Registry<V>>)
    requires IndexValid(reg)
    ensures r == Scan(args, reg, co)
  {
    var cur := reg;
    var i := 0;
    while i < |args|
      invariant 0 <= i <= |args|
      invariant IndexValid(cur)
      invariant Scan(args, reg, co) == Scan(args[i..], cur, co)
      decreases |args| - i
    {
      var arg := args[i];
      if !IsDash(arg) {
        ScanSkipsValue(args, i, cur, co);
        i := i + 1;
        continue;
      }
      var values: seq<string> := [];
      var j := i + 1;
      while j < |args| && !IsDash(args[j])
        invariant i + 1 <= j <= |args|
        invariant values == args[i + 1..j]
        invariant forall m :: 0 <= m < |values| ==> !IsDash(values[m])
        decreases |args| - j
      {
        SliceExtend(args, i + 1, j);
        values := values + [args[j]];
        j := j + 1;
      }
      ScanAtFlag(args, i, j, values, cur, co);
      var s := StepToken(arg, values, cur, co);
      if s.Fail? {
        return s;
      }
      cur := s.value;
      i := j;
    }
    assert args[i..] == [];
    return Ok(cur);
  }

  /** A non-dash token is skipped by the scan. */
  lemma ScanSkipsValue<V>(args: seq<string>, i: nat, reg: Registry<V>, co: Coercer<V>)
    requires i < |args| && !IsDash(args[i]) && IndexValid(reg)
    ensures Scan(args[i..], reg, co) == Scan(args[i + 1..], reg, co)
  {
    assert args[i..][0] == args[i] && args[i..][1..] == args[i + 1..];
  }

  /** The values the inner loop collects are the run that the scan takes:
      the scan handles the flag token with them and resumes after them. */
  lemma ScanAtFlag<V>(args: seq<string>, i: nat, j: nat, values: seq<string>, reg: Registry<V>, co: Coercer<V>)
    requires i + 1 <= j <= |args| && IsDash(args[i]) && IndexValid(reg)
    requires values == args[i + 1..j]
    requires forall m :: 0 <= m < |values| ==> !IsDash(values[m])
    requires j == |args| || IsDash(args[j])
    ensures var s := Step(args[i], values, reg, co);
            Scan(args[i..], reg, co) == if s.Fail? then Fail(s.error) else Scan(args[j..], s.value, co)
  {
    var tail := args[i + 1..];
    assert args[i..] == [args[i]] + tail;
    assert tail == values + args[j..];
    ValueRunPrefix(values, args[j..]);
    assert tail[..|values|] == values && tail[|values|..] == args[j..];
    ScanDashHead(args[i], tail, reg, co);
  }
}
