/**
  The recommendations panel (src/components/Recommendations.jsx): the
  reply text is cut at every newline and each line is cleaned before it is
  shown as a paragraph.  Cleaning deletes every `**` (markdown bold markers)
  scanning left to right, then turns a leading `- ` into a bullet `• `.
 */
module RecommendationView {
  import Text

  const Bullet: char := '\U{2022}'

  /** `s` contains the two-character substring `**`. */
  predicate HasDoubleStar(s: string)
  {
    exists i :: 0 <= i < |s| - 1 && s[i] == '*' && s[i + 1] == '*'
  }

  /**
    The global replacement of the pattern `**` by nothing: the match scans
    left to right and resumes after each match, so matches never overlap.
   */
  function StripBold(s: string): (r: string)
    ensures |r| <= |s|
    ensures !HasDoubleStar(r)
    ensures |s| > 0 && s[0] != '*' ==> |r| > 0 && r[0] == s[0]
    decreases |s|
  {
    if |s| < 2 then s
    else if s[0] == '*' && s[1] == '*' then StripBold(s[2..])
    else
      var rest := StripBold(s[1..]);
      assert s[0] == '*' ==> |rest| > 0 && rest[0] != '*';
      var r := [s[0]] + rest;
      assert forall i :: 1 <= i < |r| - 1 ==> r[i] == rest[i - 1] && r[i + 1] == rest[i];
      r
  }

  /** `s` begins with `- `. */
  predicate StartsWithDash(s: string)
  {
    |s| >= 2 && s[0] == '-' && s[1] == ' '
  }

  /** `t.replace(/^- /, "• ")`: only a dash at the very start is replaced. */
  function ReplaceLeadingDash(t: string): (r: string)
    ensures |r| == |t|
    ensures forall i :: 1 <= i < |t| ==> r[i] == t[i]
    ensures StartsWithDash(t) ==> r[0] == Bullet
    ensures !StartsWithDash(t) ==> r == t
  {
    if StartsWithDash(t) then [Bullet, ' '] + t[2..] else t
  }

  /**
    The cleaning applied to one line of the reply: no `**` is left, and the
    result is the line after bold removal, with its first character turned
    into a bullet when that text opens with `- `.
   */
  function Clean(line: string): (r: string)
    ensures !HasDoubleStar(r)
    ensures StartsWithDash(StripBold(line)) ==>
      |r| == |StripBold(line)| && r[0] == Bullet && r[1..] == StripBold(line)[1..]
    ensures !StartsWithDash(StripBold(line)) ==> r == StripBold(line)
  {
    ReplaceLeadingDash(StripBold(line))
  }

  /** The text without its asterisks. */
  function NonStars(s: string): string
  {
    if |s| == 0 then ""
    else (if s[0] == '*' then "" else [s[0]]) + NonStars(s[1..])
  }

  /** Bold removal deletes asterisks only, and always two at a time. */
  lemma {:induction false} StripBoldRemovesStarPairs(s: string)
    ensures NonStars(StripBold(s)) == NonStars(s)
    ensures Text.Count(StripBold(s), '*') <= Text.Count(s, '*')
    ensures (Text.Count(s, '*') - Text.Count(StripBold(s), '*')) % 2 == 0
    ensures |s| - |StripBold(s)| == Text.Count(s, '*') - Text.Count(StripBold(s), '*')
    decreases |s|
  {
    if |s| < 2 {
    } else if s[0] == '*' && s[1] == '*' {
      StripBoldRemovesStarPairs(s[2..]);
      assert s[1..][1..] == s[2..];
    } else {
      StripBoldRemovesStarPairs(s[1..]);
      var r := [s[0]] + StripBold(s[1..]);
      assert r[1..] == StripBold(s[1..]);
    }
  }

  /** `n` asterisks in a row. */
  function Stars(n: nat): string
  {
    seq(n, _ => '*')
  }

  /**
    Bold removal acts on each side of a character other than `*`
    separately: no match spans it, and it is kept in place.
   */
  lemma StripBoldSplitsAtNonStar(a: string, c: char, b: string)
    requires c != '*'
    ensures StripBold(a + [c] + b) == StripBold(a) + [c] + StripBold(b)
  {
    StripBoldSplitsBefore(a, [c] + b);
    StripBoldAtNonStar(c, b);
    assert a + [c] + b == a + ([c] + b);
  }

  /** Removal on `a + t` is removal on `a` then on `t`, when `t` opens with a character other than `*`. */
  lemma {:induction false} StripBoldSplitsBefore(a: string, t: string)
    requires |t| >= 1 && t[0] != '*'
    ensures StripBold(a + t) == StripBold(a) + StripBold(t)
    decreases |a|
  {
    if |a| == 0 {
      assert a + t == t;
    } else if |a| >= 2 && a[0] == '*' && a[1] == '*' {
      StripBoldSplitsBefore(a[2..], t);
      StripBoldDropsLeadingPair(a, t);
    } else {
      StripBoldSplitsBefore(a[1..], t);
      StripBoldKeepsLeading(a, t);
    }
  }

  /** A leading `**` of `a` is dropped whatever follows it. */
  lemma StripBoldDropsLeadingPair(a: string, t: string)
    requires |a| >= 2 && a[0] == '*' && a[1] == '*'
    ensures StripBold(a + t) == StripBold(a[2..] + t)
    ensures StripBold(a) == StripBold(a[2..])
  {
    assert (a + t)[2..] == a[2..] + t;
  }

  /**
    A first character of `a` that does not start a `**` stays in front,
    when `t` begins with a character other than `*`.
   */
  lemma StripBoldKeepsLeading(a: string, t: string)
    requires |a| >= 1 && !(|a| >= 2 && a[0] == '*' && a[1] == '*')
    requires |t| >= 1 && t[0] != '*'
    ensures StripBold(a + t) == [a[0]] + StripBold(a[1..] + t)
    ensures StripBold(a) == [a[0]] + StripBold(a[1..])
  {
    assert (a + t)[1..] == a[1..] + t;
    assert (a + t)[0] == a[0];
    if |a| == 1 {
      assert (a + t)[1] == t[0];
      assert a[1..] == "";
    } else {
      assert (a + t)[1] == a[1];
    }
  }

  /** A line opening with a character other than `*` keeps it in front of the rest's removal. */
  lemma StripBoldAtNonStar(c: char, b: string)
    requires c != '*'
    ensures StripBold([c] + b) == [c] + StripBold(b)
  {
    var s := [c] + b;
    assert s[1..] == b;
    if |b| == 0 {
      assert StripBold(s) == s;
    }
  }

  /** A run of `n` asterisks loses them in pairs: one is left when `n` is odd, none when even. */
  lemma {:induction false} StripBoldStarRun(n: nat)
    ensures StripBold(Stars(n)) == Stars(n % 2)
  {
    if n >= 2 {
      StripBoldStarRun(n - 2);
      assert Stars(n)[2..] == Stars(n - 2);
    }
  }

  /** Text without `**` is exactly the text bold removal leaves alone. */
  lemma {:induction false} StripBoldFixedPoints(s: string)
    ensures StripBold(s) == s <==> !HasDoubleStar(s)
    decreases |s|
  {
    if |s| >= 2 && !HasDoubleStar(s) {
      assert !(s[0] == '*' && s[1] == '*');
      assert !HasDoubleStar(s[1..]) by {
        forall i | 0 <= i < |s[1..]| - 1
          ensures !(s[1..][i] == '*' && s[1..][i + 1] == '*')
        {
          assert s[1..][i] == s[i + 1] && s[1..][i + 1] == s[i + 2];
        }
      }
      StripBoldFixedPoints(s[1..]);
      assert s == [s[0]] + s[1..];
    }
  }

  /** Cleaning a cleaned line changes nothing. */
  lemma CleanIdempotent(line: string)
    ensures Clean(Clean(line)) == Clean(line)
  {
    var c := Clean(line);
    StripBoldFixedPoints(c);
    assert StripBold(c) == c;
    if StartsWithDash(StripBold(line)) {
      assert c[0] == Bullet;
    }
  }

  /** Runs of asterisks lose them in pairs from the left. */
  lemma StarRunExamples()
    ensures Clean("***") == "*"
    ensures Clean("****") == ""
  {
  }

  /** Bold markers in front of a dash are removed first, so the dash still becomes a bullet. */
  lemma BoldBeforeDashExample()
    ensures Clean("**- x") == [Bullet] + " x"
  {
  }

  /** Only the dash at the start of the line is replaced. */
  lemma LaterDashExample()
    ensures Clean("- a - b") == [Bullet] + " a - b"
  {
  }

  /** What the panel shows below its button. */
  datatype Panel = Nothing | Paragraphs(lines: seq<string>)

  /**
    The panel: nothing when the reply is empty, otherwise one cleaned
    paragraph per line of the reply.
   */
  function Render(recommendation: string): (r: Panel)
    ensures r.Nothing? <==> recommendation == ""
    ensures r.Paragraphs? ==> |r.lines| == Text.Count(recommendation, '\n') + 1
    ensures r.Paragraphs? ==> forall i :: 0 <= i < |r.lines| ==>
      r.lines[i] == Clean(Text.Split(recommendation, '\n')[i])
  {
    if recommendation == "" then Nothing
    else
      var pieces := Text.Split(recommendation, '\n');
      Paragraphs(seq(|pieces|, i requires 0 <= i < |pieces| => Clean(pieces[i])))
  }

  /** Bold removal only deletes characters: whatever it leaves was in the line. */
  lemma {:induction false} StripBoldKeepsChars(s: string, c: char)
    requires c !in s
    ensures c !in StripBold(s)
    decreases |s|
  {
    if |s| >= 2 {
      if s[0] == '*' && s[1] == '*' {
        StripBoldKeepsChars(s[2..], c);
      } else {
        StripBoldKeepsChars(s[1..], c);
      }
    }
  }

  /** Every paragraph is a single line and free of `**`. */
  lemma RenderParagraphsClean(recommendation: string)
    requires recommendation != ""
    ensures forall i :: 0 <= i < |Render(recommendation).lines| ==>
      var line := Render(recommendation).lines[i];
      '\n' !in line && !HasDoubleStar(line)
  {
    var pieces := Text.Split(recommendation, '\n');
    forall i | 0 <= i < |pieces|
      ensures '\n' !in Clean(pieces[i]) && !HasDoubleStar(Clean(pieces[i]))
    {
      StripBoldKeepsChars(pieces[i], '\n');
    }
  }

  /**
    A reply with no `**` and no line opening with `- ` is shown verbatim:
    its paragraphs joined by newlines give the reply back.
   */
  lemma RenderPlainReply(recommendation: string)
    requires recommendation != ""
    requires !HasDoubleStar(recommendation)
    requires forall i :: 0 <= i < |Text.Split(recommendation, '\n')| ==>
      !StartsWithDash(Text.Split(recommendation, '\n')[i])
    ensures Text.Join(Render(recommendation).lines, '\n') == recommendation
  {
    var pieces := Text.Split(recommendation, '\n');
    forall i | 0 <= i < |pieces|
      ensures Clean(pieces[i]) == pieces[i]
    {
      PieceOfPlainText(recommendation, pieces, i);
      StripBoldFixedPoints(pieces[i]);
    }
    assert Render(recommendation).lines == pieces;
    Text.JoinSplit(recommendation, '\n');
  }

  /** A line of text without `**` has none either. */
  lemma PieceOfPlainText(s: string, pieces: seq<string>, k: int)
    requires !HasDoubleStar(s)
    requires pieces == Text.Split(s, '\n')
    requires 0 <= k < |pieces|
    ensures !HasDoubleStar(pieces[k])
  {
    var lo := Text.SplitPieceOffset(s, '\n', k);
    var piece := pieces[k];
    forall i | 0 <= i < |piece| - 1
      ensures !(piece[i] == '*' && piece[i + 1] == '*')
    {
      assert piece[i] == s[lo + i] && piece[i + 1] == s[lo + i + 1];
    }
  }
}
