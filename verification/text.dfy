/**
 Splitting a string on a one-character separator, as Go's `strings.Split`
 does when the separator is a single non-empty character: every separator
 ends one piece and starts the next, so `n` separators give `n + 1` pieces,
 and the empty string gives the single piece `""`.

 `Join` is the inverse, and `SplitUnique` shows that `Split` is the only
 cutting of a string into separator-free pieces that joins back to it.
 */
module Text {

  /** Number of occurrences of `c` in `s`. */
  function Occurrences(s: string, c: char): nat
    decreases |s|
  {
    if |s| == 0 then 0
    else (if s[0] == c then 1 else 0) + Occurrences(s[1..], c)
  }

  /** True iff no piece contains the separator. */
  predicate SeparatorFree(parts: seq<string>, sep: char)
  {
    forall i :: 0 <= i < |parts| ==> sep !in parts[i]
  }

  /** The pieces glued back together with `sep` between neighbours. */
  function Join(parts: seq<string>, sep: char): string
    requires |parts| >= 1
    decreases |parts|
  {
    if |parts| == 1 then parts[0]
    else parts[0] + [sep] + Join(parts[1..], sep)
  }

  /** Prepending a character to the first piece prepends it to the join. */
  lemma JoinPrependChar(c: char, parts: seq<string>, sep: char)
    requires |parts| >= 1
    ensures Join([[c] + parts[0]] + parts[1..], sep) == [c] + Join(parts, sep)
  {
    var moved := [[c] + parts[0]] + parts[1..];
    assert moved[1..] == parts[1..];
  }

  /** The pieces of `s` between consecutive occurrences of `sep`. */
  function Split(s: string, sep: char): (parts: seq<string>)
    ensures |parts| == Occurrences(s, sep) + 1
    ensures SeparatorFree(parts, sep)
    ensures Join(parts, sep) == s
    decreases |s|
  {
    if |s| == 0 then [""]
    else
      var rest := Split(s[1..], sep);
      if s[0] == sep then
        assert ([""] + rest)[1..] == rest;
        assert s == [sep] + s[1..];
        [""] + rest
      else
        JoinPrependChar(s[0], rest, sep);
        assert s == [s[0]] + s[1..];
        [[s[0]] + rest[0]] + rest[1..]
  }

  /** A join starts with its first piece, followed by a separator when more pieces follow. */
  lemma JoinStartsWithFirst(parts: seq<string>, sep: char)
    requires |parts| >= 1
    ensures |Join(parts, sep)| >= |parts[0]|
    ensures Join(parts, sep)[..|parts[0]|] == parts[0]
    ensures |parts| >= 2 ==> |Join(parts, sep)| > |parts[0]| && Join(parts, sep)[|parts[0]|] == sep
  {
  }

  /**
   Any cutting of `s` into separator-free pieces that joins back to `s`
   is exactly `Split(s, sep)`.
   */
  lemma {:induction false} SplitUnique(s: string, sep: char, parts: seq<string>)
    requires |parts| >= 1
    requires SeparatorFree(parts, sep)
    requires Join(parts, sep) == s
    ensures parts == Split(s, sep)
    decreases |s|
  {
    JoinStartsWithFirst(parts, sep);
    var p0 := parts[0];
    if |s| == 0 {
      assert |parts| == 1;
    } else if s[0] == sep {
      assert p0 == "";
      assert |parts| >= 2;
      assert Join(parts, sep) == [sep] + Join(parts[1..], sep);
      SplitUnique(s[1..], sep, parts[1..]);
      assert parts == [""] + parts[1..];
    } else {
      assert |p0| > 0;
      var shorter := [p0[1..]] + parts[1..];
      assert shorter[1..] == parts[1..];
      assert p0 == [p0[0]] + p0[1..];
      JoinPrependChar(p0[0], shorter, sep);
      assert [[p0[0]] + shorter[0]] + shorter[1..] == parts;
      assert Join(shorter, sep) == s[1..];
      SplitUnique(s[1..], sep, shorter);
    }
  }
}
