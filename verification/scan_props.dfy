/** What the scanner promises: how it cuts the argument vector into flag
    tokens and their values, how a token's values are formed, how unknown
    names and grouped short flags behave, and when the final check fails. */
module ScanProps {
  import opened Strs
  import opened Wrappers
  import opened Errors
  import opened Flags
  import opened Builder
  import opened Scanner
  import opened Seqs

  /** A flag token together with the values it collected. */
  datatype Token = Token(flag: string, values: seq<string>)

  predicate WellShaped(ts: seq<Token>) {
    forall i :: 0 <= i < |ts| ==> IsDash(ts[i].flag) && forall j :: 0 <= j < |ts[i].values| ==> !IsDash(ts[i].values[j])
  }

  /** The tokenisation the scan performs: skip non-dash tokens until a dash
      token, which takes all the non-dash tokens right after it. */
  function Tokenize(args: seq<string>): (ts: seq<Token>)
    decreases |args|
  {
    if |args| == 0 then []
    else if !IsDash(args[0]) then Tokenize(args[1..])
    else
      var k := ValueRun(args[1..]);
      [Token(args[0], args[1..1 + k])] + Tokenize(args[1 + k..])
  }

  /** Every token is a dash token and none of its values is. */
  lemma {:induction false} TokenizeShape(args: seq<string>)
    ensures WellShaped(Tokenize(args))
    decreases |args|
  {
    if |args| > 0 {
      if !IsDash(args[0]) {
        TokenizeShape(args[1..]);
      } else {
        var k := ValueRun(args[1..]);
        TokenizeShape(args[1 + k..]);
        var t := Token(args[0], args[1..1 + k]);
        var ts := [t] + Tokenize(args[1 + k..]);
        forall i | 0 <= i < |ts|
          ensures IsDash(ts[i].flag) && forall j :: 0 <= j < |ts[i].values| ==> !IsDash(ts[i].values[j])
        {
          if i > 0 {
            assert ts[i] == Tokenize(args[1 + k..])[i - 1];
          } else {
            ValueRunSpec(args[1..]);
            forall j | 0 <= j < k ensures !IsDash(t.values[j]) {
              assert t.values[j] == args[1..][j];
            }
          }
        }
      }
    }
  }

  /** The argument vector a token list stands for. */
  function Tokens(ts: seq<Token>): (args: seq<string>) {
    if |ts| == 0 then [] else [ts[0].flag] + ts[0].values + Tokens(ts[1..])
  }

  /** Processes the tokens in order, stopping at the first fatal error. */
  function Run<V>(ts: seq<Token>, reg: Registry<V>, co: Coercer<V>): (r: Outcome<Registry<V>>)
    requires IndexValid(reg) && WellShaped(ts)
    decreases |ts|
  {
    if |ts| == 0 then Ok(reg)
    else
      var r :- Step(ts[0].flag, ts[0].values, reg, co);
      assert WellShaped(ts[1..]) by {
        forall i | 0 <= i < |ts| - 1 ensures ts[1..][i] == ts[i + 1] {}
      }
      Run(ts[1..], r, co)
  }

  /** The scan is exactly: tokenise, then handle each flag token with its
      values, in order. */
  lemma {:induction false} ScanIsRun<V>(args: seq<string>, reg: Registry<V>, co: Coercer<V>)
    requires IndexValid(reg)
    ensures WellShaped(Tokenize(args)) && Scan(args, reg, co) == Run(Tokenize(args), reg, co)
    decreases |args|
  {
    TokenizeShape(args);
    if |args| > 0 {
      if !IsDash(args[0]) {
        ScanIsRun(args[1..], reg, co);
      } else {
        var k := ValueRun(args[1..]);
        var ts := Tokenize(args);
        assert ts[1..] == Tokenize(args[1 + k..]);
        var r := Step(args[0], args[1..1 + k], reg, co);
        if r.Ok? {
          ScanIsRun(args[1 + k..], r.value, co);
        }
      }
    }
  }

  /** Tokenisation loses only the non-dash tokens in front of the first dash
      token; everything after it belongs to some token, in order. */
  lemma {:induction false} TokenizeCovers(args: seq<string>)
    ensures Tokens(Tokenize(args)) == args[ValueRun(args)..]
    decreases |args|
  {
    if |args| > 0 {
      if !IsDash(args[0]) {
        TokenizeCovers(args[1..]);
        SkipOne(args);
      } else {
        TokenizeCovers(args[1..][ValueRun(args[1..])..]);
        TakeOne(args);
      }
    }
  }

  lemma SkipOne(args: seq<string>)
    requires |args| > 0 && !IsDash(args[0])
    requires Tokens(Tokenize(args[1..])) == args[1..][ValueRun(args[1..])..]
    ensures Tokens(Tokenize(args)) == args[ValueRun(args)..]
  {
    assert Tokenize(args) == Tokenize(args[1..]);
    assert ValueRun(args) == 1 + ValueRun(args[1..]);
    assert args[1..][ValueRun(args[1..])..] == args[1 + ValueRun(args[1..])..];
  }

  lemma TokensCons(t: Token, ts: seq<Token>)
    ensures Tokens([t] + ts) == [t.flag] + t.values + Tokens(ts)
  {
    assert ([t] + ts)[1..] == ts;
  }

  lemma TakeOne(args: seq<string>)
    requires |args| > 0 && IsDash(args[0])
    requires var tail := args[1..];
             var rest := tail[ValueRun(tail)..];
             Tokens(Tokenize(rest)) == rest[ValueRun(rest)..]
    ensures Tokens(Tokenize(args)) == args[ValueRun(args)..]
  {
    var tail := args[1..];
    var k := ValueRun(tail);
    var rest := tail[k..];
    assert args == [args[0]] + tail;
    TokenizeDashHead(args[0], tail);
    RunEndsAtDash(tail, k);
    RunStopsAtDash(rest);
    var ts := Tokenize(rest);
    var t := Token(args[0], tail[..k]);
    TokensCons(t, ts);
    AppendAssoc([args[0]], tail[..k], rest);
    TakeDrop(tail, k);
    assert ValueRun(args) == 0;
    SliceFromZero(args);
  }

  lemma RunEndsAtDash(args: seq<string>, k: nat)
    requires k == ValueRun(args)
    ensures |args[k..]| == 0 || IsDash(args[k..][0])
  {
    ValueRunSpec(args);
  }

  lemma RunStopsAtDash(rest: seq<string>)
    requires |rest| == 0 || IsDash(rest[0])
    ensures rest[ValueRun(rest)..] == rest
  {
    assert ValueRun(rest) == 0;
  }

  lemma {:induction false} ValueRunPrefix(vs: seq<string>, rest: seq<string>)
    requires forall j :: 0 <= j < |vs| ==> !IsDash(vs[j])
    requires |rest| == 0 || IsDash(rest[0])
    ensures ValueRun(vs + rest) == |vs|
    decreases |vs|
  {
    if |vs| == 0 {
      assert vs + rest == rest;
    } else {
      assert (vs + rest)[1..] == vs[1..] + rest;
      ValueRunPrefix(vs[1..], rest);
    }
  }

  /** Tokenising the arguments a well-shaped token list stands for gives the
      list back. */
  lemma {:induction false} TokenizeRoundTrip(ts: seq<Token>)
    requires WellShaped(ts)
    ensures Tokenize(Tokens(ts)) == ts
    decreases |ts|
  {
    if |ts| > 0 {
      var t := ts[0];
      var tail := ts[1..];
      assert ts == [t] + tail;
      assert WellShaped(tail) by {
        forall i | 0 <= i < |tail| ensures tail[i] == ts[i + 1] {}
      }
      TokenizeRoundTrip(tail);
      var rest := Tokens(tail);
      TokensCons(t, tail);
      AppendAssoc([t.flag], t.values, rest);
      assert |rest| == 0 || IsDash(rest[0]) by {
        if |tail| > 0 {
          TokensCons(tail[0], tail[1..]);
          assert tail == [tail[0]] + tail[1..];
        }
      }
      ValueRunPrefix(t.values, rest);
      var vr := t.values + rest;
      assert vr[..|t.values|] == t.values && vr[|t.values|..] == rest;
      TokenizeDashHead(t.flag, vr);
    }
  }

  /** Tokenising from a dash token: it takes the run of values after it. */
  lemma TokenizeDashHead(tok: string, rest: seq<string>)
    requires IsDash(tok)
    ensures Tokenize([tok] + rest) == [Token(tok, rest[..ValueRun(rest)])] + Tokenize(rest[ValueRun(rest)..])
  {
    var args := [tok] + rest;
    assert args[0] == tok && args[1..] == rest;
    var k := ValueRun(rest);
    assert args[1..1 + k] == rest[..k] && args[1 + k..] == rest[k..];
  }

  /** Non-dash tokens in front of the first dash token are skipped. */
  lemma {:induction false} SkipLeadingValues<V>(pre: seq<string>, args: seq<string>, reg: Registry<V>, co: Coercer<V>)
    requires IndexValid(reg)
    requires forall i :: 0 <= i < |pre| ==> !IsDash(pre[i])
    ensures Scan(pre + args, reg, co) == Scan(args, reg, co)
    decreases |pre|
  {
    if |pre| == 0 {
      assert pre + args == args;
    } else {
      assert (pre + args)[0] == pre[0] && (pre + args)[1..] == pre[1..] + args;
      SkipLeadingValues(pre[1..], args, reg, co);
    }
  }

  /** `--f=v` followed by more tokens is handled as `--f v` followed by the
      same tokens: the inline value is the first value. */
  lemma InlineValueIsFirstValue<V>(h: string, v: string, rest: seq<string>, reg: Registry<V>, co: Coercer<V>)
    requires IndexValid(reg)
    requires IsDash(h) && '=' !in h && '=' !in v && !IsDash(v)
    ensures Scan([h + "=" + v] + rest, reg, co) == Scan([h, v] + rest, reg, co)
  {
    var tok := h + "=" + v;
    InlineSplit(h, v);
    assert tok[0] == h[0];
    var k := ValueRun(rest);
    ScanDashHead(tok, rest, reg, co);
    ScanDashHead(h, [v] + rest, reg, co);
    assert [h, v] + rest == [h] + ([v] + rest);
    ValueRunCons(v, rest);
    assert ([v] + rest)[..1 + k] == [v] + rest[..k];
    assert ([v] + rest)[1 + k..] == rest[k..];
    SplitNoSep(h, '=');
    assert ValueList(tok, rest[..k]) == ValueList(h, [v] + rest[..k]);
    StepCongruence(tok, rest[..k], h, [v] + rest[..k], reg, co);
  }

  /** A flag token's handling depends only on its name part and its value
      list. */
  lemma StepCongruence<V>(tok: string, trailing: seq<string>, tok': string, trailing': seq<string>, reg: Registry<V>, co: Coercer<V>)
    requires IndexValid(reg) && IsDash(tok) && IsDash(tok')
    requires Split(tok, '=')[0] == Split(tok', '=')[0]
    requires ValueList(tok, trailing) == ValueList(tok', trailing')
    ensures Step(tok, trailing, reg, co) == Step(tok', trailing', reg, co)
  {
  }

  lemma InlineSplit(h: string, v: string)
    requires '=' !in h && '=' !in v
    ensures Split(h + "=" + v, '=') == [h, v]
  {
    assert h + "=" + v == h + ['='] + v;
    SplitAtSep(h, v, '=');
    SplitNoSep(v, '=');
  }

  /** The scan at a dash token: it takes the run of values after it, then
      resumes after them. */
  lemma ScanDashHead<V>(tok: string, rest: seq<string>, reg: Registry<V>, co: Coercer<V>)
    requires IndexValid(reg) && IsDash(tok)
    ensures var k := ValueRun(rest);
            var s := Step(tok, rest[..k], reg, co);
            Scan([tok] + rest, reg, co) == if s.Fail? then Fail(s.error) else Scan(rest[k..], s.value, co)
  {
    var args := [tok] + rest;
    assert args[0] == tok && args[1..] == rest;
    var k := ValueRun(rest);
    assert args[1..1 + k] == rest[..k] && args[1 + k..] == rest[k..];
  }

  lemma ValueRunCons(v: string, rest: seq<string>)
    requires !IsDash(v)
    ensures ValueRun([v] + rest) == 1 + ValueRun(rest)
  {
    assert ([v] + rest)[1..] == rest;
  }

  /** `--f=a=b` carries two values, so a known flag rejects it. */
  lemma TwoEqualsIsTwoValues<V>(h: string, a: string, b: string, reg: Registry<V>, co: Coercer<V>)
    requires IndexValid(reg) && IsDash(h) && h in reg.index
    requires '=' !in h && '=' !in a && '=' !in b
    ensures Step(h + "=" + a + "=" + b, [], reg, co) == Fail(TooMany(2, h))
  {
    var tok := h + "=" + a + "=" + b;
    assert tok == h + ['='] + (a + ['='] + b);
    SplitAtSep(h, a + ['='] + b, '=');
    SplitAtSep(a, b, '=');
    SplitNoSep(b, '=');
    assert Split(tok, '=') == [h, a, b];
    assert tok[..|h|] == h;
    assert ValueList(tok, []) == [a, b];
  }

  /** A known flag gets no value, one value or is refused: it is refused
      with "too many" exactly when the inline and trailing values together
      are more than one; otherwise its setter receives the one value (or the
      empty string) and no other flag changes. */
  lemma KnownFlagArity<V>(tok: string, trailing: seq<string>, reg: Registry<V>, co: Coercer<V>)
    requires IndexValid(reg) && IsDash(tok)
    requires Split(tok, '=')[0] in reg.index
    ensures var head := Split(tok, '=')[0];
            var vs := ValueList(tok, trailing);
            var r := Step(tok, trailing, reg, co);
            && (|vs| > 1 ==> r == Fail(TooMany(|vs|, head)))
            && (r.Fail? && r.error.TooMany? ==> |vs| > 1)
            && (|vs| <= 1 && r.Ok? ==>
                  var i := reg.index[head];
                  var v := if |vs| == 0 then "" else vs[0];
                  && r.value.flags[i] == Apply(reg.flags[i], co.setter(reg.flags[i], head, v))
                  && forall j :: 0 <= j < |reg.flags| && j != i ==> r.value.flags[j] == reg.flags[j])
  {
  }

  /** After the setter of a known flag: a fatal error aborts; otherwise, with
      no coercion error the new string form is recorded under the name used;
      a coercion error aborts only a flag marked assigned and is otherwise
      kept on the flag while scanning goes on. */
  lemma KnownFlagOutcome<V>(tok: string, trailing: seq<string>, reg: Registry<V>, co: Coercer<V>)
    requires IndexValid(reg) && IsDash(tok)
    requires Split(tok, '=')[0] in reg.index
    requires |ValueList(tok, trailing)| <= 1
    ensures var head := Split(tok, '=')[0];
            var vs := ValueList(tok, trailing);
            var i := reg.index[head];
            var o := co.setter(reg.flags[i], head, if |vs| == 0 then "" else vs[0]);
            var r := Step(tok, trailing, reg, co);
            && (o.fatal.Some? ==> r == Fail(SetFailed(o.fatal.value)))
            && (o.fatal.None? && o.err.None? ==>
                  r.Ok? && head in r.value.values && r.value.values[head] == co.show(o.value))
            && (o.fatal.None? && o.err.Some? && o.isAssigned ==>
                  r == Fail(AssignedInvalid(co.display(Apply(reg.flags[i], o)), o.err.value)))
            && (o.fatal.None? && o.err.Some? && !o.isAssigned ==>
                  r.Ok? && r.value.values == reg.values && r.value.flags[i].err == o.err)
  {
  }

  /** An unknown name with a `--` prefix is an undefined flag. An unknown
      single-dash token is a group of short flags whose inline and trailing
      values are dropped. */
  lemma UnknownFlag<V>(tok: string, trailing: seq<string>, reg: Registry<V>, co: Coercer<V>)
    requires IndexValid(reg) && IsDash(tok)
    requires Split(tok, '=')[0] !in reg.index
    ensures var head := Split(tok, '=')[0];
            && (IsDoubleDash(head) ==> Step(tok, trailing, reg, co) == Fail(Undefined(head)))
            && (!IsDoubleDash(head) ==> Step(tok, trailing, reg, co) == Group(head[1..], reg, co))
  {
  }

  /** A lone "-" that is not itself a name does nothing. */
  lemma LoneDashIsNoOp<V>(trailing: seq<string>, reg: Registry<V>, co: Coercer<V>)
    requires IndexValid(reg) && "-" !in reg.index
    ensures Step("-", trailing, reg, co) == Ok(reg)
  {
    SplitNoSep("-", '=');
  }

  /** The tokens "-a", "-b", ... for the characters of `s`. */
  function Expand(s: string): (args: seq<string>)
    ensures |args| == |s|
    ensures forall i :: 0 <= i < |s| ==> args[i] == "-" + [s[i]]
  {
    if |s| == 0 then [] else ["-" + [s[0]]] + Expand(s[1..])
  }

  predicate AbortsOnAssigned<V>(r: Outcome<Registry<V>>) {
    r.Fail? && r.error.AssignedInvalid?
  }

  lemma {:induction false} GroupIsSeparate<V>(s: string, reg: Registry<V>, co: Coercer<V>)
    requires IndexValid(reg) && '=' !in s
    ensures !AbortsOnAssigned(Scan(Expand(s), reg, co)) ==> Group(s, reg, co) == Scan(Expand(s), reg, co)
    decreases |s|
  {
    if |s| > 0 {
      var name := "-" + [s[0]];
      var args := Expand(s);
      assert args == [name] + Expand(s[1..]);
      assert args[1..] == Expand(s[1..]);
      assert ValueRun(args[1..]) == 0;
      assert args[1..1] == [] && args[1..][0..] == args[1..];
      assert '=' !in name;
      SplitNoSep(name, '=');
      assert ValueList(name, []) == [];
      if name in reg.index {
        var a := Assign(reg, name, "", co);
        if a.Ok? {
          GroupIsSeparate(s[1..], a.value, co);
        }
      } else {
        assert TrimDash(name) == [s[0]];
        assert [s[0]][1..] == [];
      }
    }
  }

  /** `-abc` behaves as `-a -b -c` when "-abc" is not itself a name, unless
      the separate flags would abort on an assigned flag's coercion error: a
      group never escalates such errors. Trailing values of the group are
      dropped. */
  lemma GroupedShortFlags<V>(s: string, trailing: seq<string>, reg: Registry<V>, co: Coercer<V>)
    requires IndexValid(reg)
    requires '=' !in s && (|s| == 0 || s[0] != '-')
    requires "-" + s !in reg.index
    ensures !AbortsOnAssigned(Scan(Expand(s), reg, co)) ==> Step("-" + s, trailing, reg, co) == Scan(Expand(s), reg, co)
  {
    var tok := "-" + s;
    assert '=' !in tok;
    SplitNoSep(tok, '=');
    assert !IsDoubleDash(tok) by {
      if |s| > 0 { assert tok[1] == s[0]; }
    }
    assert TrimDash(tok) == s;
    GroupIsSeparate(s, reg, co);
  }

  /** With no arguments, parsing succeeds exactly when the record builds and
      every required flag has a default, or a help flag reads true. */
  lemma ParseEmptyArgs<V>(fs: seq<Field<V>>, co: Coercer<V>)
    ensures var flat := FlagsOf(Flatten(fs));
            Parse(fs, [], co).Ok? <==>
              && Build(fs, Empty(), co.show).Ok?
              && (NoneMissing(flat) || HelpRequested(flat, co))
  {
    BuildRegistry(fs, co.show);
  }

  /** A help flag that reads true after the scan makes the parse succeed,
      whatever required flags are missing. */
  lemma HelpSuppressesRequired<V>(fs: seq<Field<V>>, args: seq<string>, co: Coercer<V>)
    requires Build(fs, Empty(), co.show).Ok?
    requires var reg := Build(fs, Empty(), co.show).value;
             var s := Scan(args, reg, co);
             s.Ok? && HelpRequested(s.value.flags, co)
    ensures Parse(fs, args, co).Ok? && Parse(fs, args, co).value.skipRequired
  {
  }
}
