/** The binder's error values. Each constructor is one of the `fmt.Errorf`
    sites of cli.go; `Message` renders the text those sites produce, without
    terminal colour. */
module Errors {
  import opened Wrappers
  import opened Strs
  import opened Seqs

  datatype Error =
    /** "flag X repeat": a name declared by two flags, or twice by one. */
    | Repeat(name: string)
    /** An error from the flag constructor (bad tag or bad default). */
    | TagError(msg: string)
    /** "undefined flag X": an unknown long name, or an unknown character of
        a group of short flags (then X is that single short name). */
    | Undefined(name: string)
    /** "too many(N) value for flag X". */
    | TooMany(count: nat, name: string)
    /** A fatal error returned by the flag's setter. */
    | SetFailed(msg: string)
    /** "assigned argument X invalid: E": a coercion error on a flag that is
        marked as assigned. */
    | AssignedInvalid(name: string, cause: string)
    /** One "required argument X missing" line per missing flag. */
    | RequiredMissing(names: seq<string>)

  /** The outcome of a step of the binder: a value or one of its errors. */
  type Outcome<T> = Result<T, Error>

  predicate AllDigits(s: string) {
    forall i :: 0 <= i < |s| ==> '0' <= s[i] <= '9'
  }

  /** The number a string of decimal digits denotes. */
  function DigitsValue(s: string): (n: nat)
    requires AllDigits(s)
  {
    if |s| == 0 then 0 else 10 * DigitsValue(s[..|s| - 1]) + (s[|s| - 1] - '0') as nat
  }

  /** Decimal rendering of a count, as `%d` prints it: digits only, with no
      leading zero. */
  function NatToString(n: nat): (s: string)
    ensures |s| >= 1 && AllDigits(s)
    ensures s[0] != '0' || n == 0
    decreases n
  {
    var d := ['0' + (n % 10) as char];
    if n < 10 then d else NatToString(n / 10) + d
  }

  /** The rendering denotes the count it renders. */
  lemma {:induction false} NatToStringValue(n: nat)
    ensures DigitsValue(NatToString(n)) == n
    decreases n
  {
    if n >= 10 {
      NatToStringValue(n / 10);
      var s := NatToString(n);
      assert s[..|s| - 1] == NatToString(n / 10);
    }
  }

  function MissingLine(name: string): (line: string) {
    "required argument " + name + " missing"
  }

  function MissingLines(names: seq<string>): (lines: seq<string>)
    ensures |lines| == |names|
    ensures forall k :: 0 <= k < |names| ==> lines[k] == MissingLine(names[k])
  {
    seq(|names|, k requires 0 <= k < |names| => MissingLine(names[k]))
  }

  /** The error text, with every flag name left uncoloured. A message from
      the setter or the flag constructor is passed on unchanged. */
  function Message(e: Error): (m: string)
    ensures e.TagError? || e.SetFailed? ==> m == e.msg
    ensures e.RequiredMissing? ==> (m == "" <==> |e.names| == 0)
  {
    match e
    case Repeat(n) => "flag " + n + " repeat"
    case TagError(m) => m
    case Undefined(n) => "undefined flag " + n
    case TooMany(c, n) => "too many(" + NatToString(c) + ") value for flag " + n
    case SetFailed(m) => m
    case AssignedInvalid(n, c) => "assigned argument " + n + " invalid: " + c
    case RequiredMissing(ns) =>
      if |ns| == 0 then "" else
        var lines := MissingLines(ns);
        assert |lines[0]| > 0;
        JoinNonEmpty(lines, '\n');
        Join(lines, '\n')
  }

  /** Each text can be read back: the flag name, the count and the cause sit
      at fixed places around the fixed words. */
  lemma MessageReadsBack(e: Error)
    ensures var m := Message(e);
      && (e.Repeat? ==>
            && |m| == |e.name| + 12 && m[..5] == "flag "
            && m[5..|m| - 7] == e.name && m[|m| - 7..] == " repeat")
      && (e.Undefined? ==> |m| >= 15 && m[..15] == "undefined flag " && m[15..] == e.name)
      && (e.TooMany? ==>
            var c := NatToString(e.count);
            && |m| == |c| + 26 + |e.name| && m[..9] == "too many("
            && AllDigits(m[9..9 + |c|]) && DigitsValue(m[9..9 + |c|]) == e.count
            && m[9 + |c|] == ')' && m[26 + |c|..] == e.name)
      && (e.AssignedInvalid? ==>
            && |m| == |e.name| + 28 + |e.cause| && m[..18] == "assigned argument "
            && m[18..18 + |e.name|] == e.name && m[28 + |e.name|..] == e.cause)
  {
    match e
    case Repeat(n) => Pieces("flag ", n, " repeat");
    case Undefined(n) =>
    case TooMany(c, n) =>
      var d := NatToString(c);
      NatToStringValue(c);
      Pieces("too many(", d, ") value for flag " + n);
      AppendAssoc("too many(" + d, ") value for flag ", n);
      Pieces("too many(" + d, ") value for flag ", n);
    case AssignedInvalid(n, c) =>
      Pieces("assigned argument " + n, " invalid: ", c);
      Pieces("assigned argument ", n, " invalid: ");
    case _ =>
  }

  /** The combined required-argument message has exactly one line per missing
      flag, in order, as long as no flag name holds a newline. */
  lemma RequiredMessageLines(names: seq<string>)
    requires |names| >= 1
    requires forall k :: 0 <= k < |names| ==> '\n' !in names[k]
    ensures Split(Message(RequiredMissing(names)), '\n') == MissingLines(names)
  {
    var lines := MissingLines(names);
    forall k | 0 <= k < |lines|
      ensures '\n' !in lines[k]
    {
      assert lines[k] == "required argument " + names[k] + " missing";
    }
    SplitJoin(lines, '\n');
  }
}
