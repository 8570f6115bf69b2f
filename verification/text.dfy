/**
  The two string operations the task manager applies to newline-separated
  text: Python's `sep.join(parts)` (the backend builds the task summary with
  it) and JavaScript's `s.split(sep)` for a one-character separator (the
  recommendations panel cuts the reply into paragraphs with it).
 */
module Text {

  /** Number of occurrences of `c` in `s`. */
  function Count(s: string, c: char): nat
  {
    if |s| == 0 then 0
    else (if s[0] == c then 1 else 0) + Count(s[1..], c)
  }

  /** Occurrences in a concatenation add up. */
  lemma {:induction false} CountConcat(a: string, b: string, c: char)
    ensures Count(a + b, c) == Count(a, c) + Count(b, c)
  {
    if |a| > 0 {
      CountConcat(a[1..], b, c);
      assert (a + b)[1..] == a[1..] + b;
    } else {
      assert a + b == b;
    }
  }

  /**
    Python's `sep.join(parts)`: the parts with one `sep` between neighbours,
    `""` for no parts.  The text opens with the first part, and parts free of
    `sep` give one separator fewer than parts.
   */
  function Join(parts: seq<string>, sep: char): (r: string)
    ensures |parts| == 0 ==> r == ""
    ensures |parts| >= 1 ==> |parts[0]| <= |r| && r[..|parts[0]|] == parts[0]
    ensures |parts| >= 1 && (forall i :: 0 <= i < |parts| ==> sep !in parts[i]) ==>
      Count(r, sep) == |parts| - 1
  {
    if |parts| == 0 then ""
    else if |parts| == 1 then
      assert sep !in parts[0] ==> Count(parts[0], sep) == 0 by { CountAbsent(parts[0], sep); }
      parts[0]
    else
      var rest := Join(parts[1..], sep);
      CountConcat(parts[0] + [sep], rest, sep);
      CountConcat(parts[0], [sep], sep);
      assert Count([sep], sep) == 1;
      assert sep !in parts[0] ==> Count(parts[0], sep) == 0 by { CountAbsent(parts[0], sep); }
      assert (parts[0] + [sep] + rest)[..|parts[0]|] == parts[0];
      parts[0] + [sep] + rest
  }

  /** A character that does not occur has count zero. */
  lemma {:induction false} CountAbsent(s: string, c: char)
    ensures c !in s ==> Count(s, c) == 0
  {
    if |s| > 0 {
      CountAbsent(s[1..], c);
      assert c !in s ==> c !in s[1..];
    }
  }

  /**
    JavaScript's `s.split(sep)` for a single-character separator: the maximal
    separator-free pieces, including the empty ones at either end, so
    `"".split(sep)` is `[""]` and there is always one piece more than separators.
   */
  function Split(s: string, sep: char): (pieces: seq<string>)
    ensures |pieces| == Count(s, sep) + 1
    ensures forall i :: 0 <= i < |pieces| ==> sep !in pieces[i]
  {
    if |s| == 0 then [""]
    else
      var rest := Split(s[1..], sep);
      if s[0] == sep then [""] + rest
      else [[s[0]] + rest[0]] + rest[1..]
  }

  /** Gluing the pieces of a split back together with the separator restores the text. */
  lemma {:induction false} JoinSplit(s: string, sep: char)
    ensures Join(Split(s, sep), sep) == s
  {
    if |s| > 0 {
      var rest := Split(s[1..], sep);
      JoinSplit(s[1..], sep);
      if s[0] == sep {
        assert ([""] + rest)[1..] == rest;
        assert Join([""] + rest, sep) == "" + [sep] + Join(rest, sep);
      } else {
        JoinExtendFirst(s[0], rest, sep);
      }
      assert s == [s[0]] + s[1..];
    }
  }

  /** Prepending a character to the first part prepends it to the joined text. */
  lemma JoinExtendFirst(c: char, parts: seq<string>, sep: char)
    requires |parts| >= 1
    ensures Join([[c] + parts[0]] + parts[1..], sep) == [c] + Join(parts, sep)
  {
  }

  /** Splitting text that begins with a separator-free prefix extends the first piece only. */
  lemma {:induction false} SplitPrefix(a: string, b: string, sep: char)
    requires sep !in a
    ensures Split(a + b, sep) == [a + Split(b, sep)[0]] + Split(b, sep)[1..]
  {
    if |a| == 0 {
      var pieces := Split(b, sep);
      assert a + b == b;
      assert a + pieces[0] == pieces[0];
      assert [pieces[0]] + pieces[1..] == pieces;
    } else {
      SplitPrefix(a[1..], b, sep);
      assert (a + b)[1..] == a[1..] + b;
      assert (a + b)[0] == a[0] != sep;
      assert [a[0]] + (a[1..] + Split(b, sep)[0]) == a + Split(b, sep)[0];
    }
  }

  /** Splitting joined separator-free parts gives the parts back (needs at least one part). */
  lemma {:induction false} SplitJoin(parts: seq<string>, sep: char)
    requires |parts| >= 1
    requires forall i :: 0 <= i < |parts| ==> sep !in parts[i]
    ensures Split(Join(parts, sep), sep) == parts
  {
    if |parts| == 1 {
      SplitPrefix(parts[0], "", sep);
      assert parts[0] + "" == parts[0];
    } else {
      var tail := Join(parts[1..], sep);
      SplitJoin(parts[1..], sep);
      assert Join(parts, sep) == parts[0] + ([sep] + tail);
      SplitPrefix(parts[0], [sep] + tail, sep);
      assert ([sep] + tail)[1..] == tail;
      assert Split([sep] + tail, sep) == [""] + parts[1..];
      assert parts[0] + "" == parts[0];
    }
  }

  /** The first piece of a split is a prefix of the text. */
  lemma {:induction false} SplitFirstIsPrefix(s: string, sep: char)
    ensures |Split(s, sep)[0]| <= |s| && s[..|Split(s, sep)[0]|] == Split(s, sep)[0]
  {
    if |s| > 0 && s[0] != sep {
      SplitFirstIsPrefix(s[1..], sep);
      var first := Split(s[1..], sep)[0];
      assert Split(s, sep)[0] == [s[0]] + first;
      assert s[..|first| + 1] == [s[0]] + s[1..][..|first|];
    }
  }

  /** Every piece of a split occurs in the text as a contiguous run, starting at `lo`. */
  lemma {:induction false} SplitPieceOffset(s: string, sep: char, k: int) returns (lo: nat)
    requires 0 <= k < |Split(s, sep)|
    ensures lo + |Split(s, sep)[k]| <= |s|
    ensures s[lo..lo + |Split(s, sep)[k]|] == Split(s, sep)[k]
  {
    var piece := Split(s, sep)[k];
    if k == 0 {
      SplitFirstIsPrefix(s, sep);
      lo := 0;
    } else {
      var rest := Split(s[1..], sep);
      var inner: nat;
      if s[0] == sep {
        assert piece == rest[k - 1];
        inner := SplitPieceOffset(s[1..], sep, k - 1);
      } else {
        assert piece == rest[k];
        inner := SplitPieceOffset(s[1..], sep, k);
      }
      assert s[1..][inner..inner + |piece|] == piece;
      lo := inner + 1;
      assert s[lo..lo + |piece|] == s[1..][inner..inner + |piece|];
    }
  }
}
