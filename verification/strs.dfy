/** Byte-string helpers the binder relies on: the dash prefix tests and
    Go's `strings.Split` / `strings.Join` on a one-character separator.
    A `string` here is a sequence of characters, each standing for one byte
    of the Go string. */
module Strs {

  /** `strings.HasPrefix(s, "-")`: the token looks like a flag. */
  predicate IsDash(s: string) {
    |s| > 0 && s[0] == '-'
  }

  /** `strings.HasPrefix(s, "--")`: the token looks like a long flag. */
  predicate IsDoubleDash(s: string) {
    |s| > 1 && s[0] == '-' && s[1] == '-'
  }

  /** `strings.TrimPrefix(s, "-")`. */
  function TrimDash(s: string): (r: string)
    ensures IsDash(s) ==> "-" + r == s
    ensures !IsDash(s) ==> r == s
  {
    if IsDash(s) then s[1..] else s
  }

  /** `strings.Split(s, [sep])`: the pieces of `s` between occurrences of
      `sep`. There is always at least one piece, one more than there are
      separators, and no piece holds the separator. */
  function Split(s: string, sep: char): (parts: seq<string>)
    ensures |parts| >= 1
    ensures |s| > 0 && s[0] != sep ==> |parts[0]| > 0 && parts[0][0] == s[0]
  {
    if |s| == 0 then [""]
    else
      var rest := Split(s[1..], sep);
      assert s == [s[0]] + s[1..];
      if s[0] == sep then [""] + rest
      else [[s[0]] + rest[0]] + rest[1..]
  }

  /** No piece holds the separator. */
  lemma {:induction false} SplitPieces(s: string, sep: char)
    ensures forall i :: 0 <= i < |Split(s, sep)| ==> sep !in Split(s, sep)[i]
  {
    if |s| > 0 {
      SplitPieces(s[1..], sep);
      var rest := Split(s[1..], sep);
      assert s == [s[0]] + s[1..];
      if s[0] != sep {
        assert sep !in rest[0];
        forall i | 0 <= i < |rest| - 1 ensures sep !in rest[1..][i] {
          assert rest[1..][i] == rest[i + 1];
        }
      }
    }
  }

  /** `strings.Join(parts, [sep])`. */
  function Join(parts: seq<string>, sep: char): (s: string)
    requires |parts| >= 1
  {
    if |parts| == 1 then parts[0]
    else parts[0] + [sep] + Join(parts[1..], sep)
  }

  /** A join is at least as long as its first piece. */
  lemma JoinNonEmpty(parts: seq<string>, sep: char)
    requires |parts| >= 1
    ensures |Join(parts, sep)| >= |parts[0]|
  {
  }

  lemma {:induction false} JoinConsFirst(c: char, parts: seq<string>, sep: char)
    requires |parts| >= 1
    ensures Join([[c] + parts[0]] + parts[1..], sep) == [c] + Join(parts, sep)
  {
    var ps := [[c] + parts[0]] + parts[1..];
    assert ps[1..] == parts[1..];
  }

  /** There is one more piece than there are separators. */
  lemma {:induction false} SplitCount(s: string, sep: char)
    ensures |Split(s, sep)| == multiset(s)[sep] + 1
  {
    if |s| > 0 {
      SplitCount(s[1..], sep);
      assert s == [s[0]] + s[1..];
      assert multiset(s) == multiset{s[0]} + multiset(s[1..]);
    }
  }

  /** Joining the pieces back with the separator gives the original string. */
  lemma {:induction false} JoinSplit(s: string, sep: char)
    ensures Join(Split(s, sep), sep) == s
  {
    if |s| > 0 {
      var rest := Split(s[1..], sep);
      JoinSplit(s[1..], sep);
      if s[0] == sep {
        assert ([""] + rest)[1..] == rest;
      } else {
        JoinConsFirst(s[0], rest, sep);
      }
      assert [s[0]] + s[1..] == s;
    }
  }

  /** A prefix free of the separator extends the first piece only. */
  lemma {:induction false} SplitPrefix(p: string, t: string, sep: char)
    requires sep !in p
    ensures Split(p + t, sep) == [p + Split(t, sep)[0]] + Split(t, sep)[1..]
  {
    if |p| > 0 {
      assert (p + t)[1..] == p[1..] + t;
      SplitPrefix(p[1..], t, sep);
      assert [p[0]] + (p[1..] + Split(t, sep)[0]) == p + Split(t, sep)[0];
    } else {
      assert p + t == t;
      assert p + Split(t, sep)[0] == Split(t, sep)[0];
      assert Split(t, sep) == [Split(t, sep)[0]] + Split(t, sep)[1..];
    }
  }

  /** A piece followed by the separator becomes a piece of its own. */
  lemma {:induction false} SplitAtSep(p: string, t: string, sep: char)
    requires sep !in p
    ensures Split(p + [sep] + t, sep) == [p] + Split(t, sep)
  {
    var u := [sep] + t;
    assert u[0] == sep && u[1..] == t;
    assert Split(u, sep) == [""] + Split(t, sep);
    assert p + [sep] + t == p + u;
    SplitPrefix(p, u, sep);
    assert p + "" == p;
  }

  /** Splitting a join of separator-free pieces gives the pieces back. */
  lemma {:induction false} SplitJoin(parts: seq<string>, sep: char)
    requires |parts| >= 1
    requires forall i :: 0 <= i < |parts| ==> sep !in parts[i]
    ensures Split(Join(parts, sep), sep) == parts
  {
    if |parts| == 1 {
      SplitPrefix(parts[0], "", sep);
      assert parts[0] + "" == parts[0];
    } else {
      SplitJoin(parts[1..], sep);
      SplitAtSep(parts[0], Join(parts[1..], sep), sep);
      assert [parts[0]] + parts[1..] == parts;
    }
  }

  /** A string without the separator is a single piece. */
  lemma SplitNoSep(s: string, sep: char)
    requires sep !in s
    ensures Split(s, sep) == [s]
  {
    SplitCount(s, sep);
    JoinSplit(s, sep);
  }
}
