/** Decimal text: formatting integers as Python's str() and C++'s
    operator<< do, and the Python string operations the dataset loaders rely
    on (str.strip, str.split, str.join, int). */
module Text {
  import opened Wrappers

  predicate IsDigit(c: char) {
    '0' <= c <= '9'
  }

  predicate AllDigits(s: string) {
    forall k :: 0 <= k < |s| ==> IsDigit(s[k])
  }

  function DigitValue(c: char): (d: nat)
    requires IsDigit(c)
    ensures d < 10
  {
    (c as int) - ('0' as int)
  }

  function DigitChar(d: nat): (c: char)
    requires d < 10
    ensures IsDigit(c) && DigitValue(c) == d
  {
    (('0' as int) + d) as char
  }

  /** The value of a run of decimal digits, most significant first. */
  function DigitsValue(s: string): nat
    requires AllDigits(s)
    decreases |s|
  {
    if |s| == 0 then 0 else DigitsValue(s[..|s| - 1]) * 10 + DigitValue(s[|s| - 1])
  }

  /** Length of the run of decimal digits s starts with. */
  function DigitRun(s: string): (k: nat)
    ensures k <= |s| && AllDigits(s[..k])
    ensures k < |s| ==> !IsDigit(s[k])
    decreases |s|
  {
    if |s| == 0 || !IsDigit(s[0]) then 0
    else
      var k := 1 + DigitRun(s[1..]);
      assert s[..k] == [s[0]] + s[1..][..k - 1];
      k
  }

  /** Decimal digits of n without leading zeros ("0" for zero). */
  function NatToString(n: nat): (s: string)
    ensures |s| >= 1 && AllDigits(s)
    decreases n
  {
    if n < 10 then [DigitChar(n)] else NatToString(n / 10) + [DigitChar(n % 10)]
  }

  /** Reading back the digits NatToString writes gives n again. */
  lemma {:induction false} NatToStringValue(n: nat)
    ensures DigitsValue(NatToString(n)) == n
    decreases n
  {
    if n >= 10 {
      var s := NatToString(n);
      assert s[..|s| - 1] == NatToString(n / 10);
      NatToStringValue(n / 10);
    }
  }

  /** str(x) in Python and `out << x` in C++: an optional '-' and the decimal
      digits of |x|. */
  function IntToString(x: int): (s: string)
    ensures |s| >= 1
    ensures forall k :: 0 <= k < |s| ==> IsDigit(s[k]) || (k == 0 && s[k] == '-')
    ensures IsDigit(s[|s| - 1])
  {
    if x < 0 then "-" + NatToString(-x) else NatToString(x)
  }

  // -----------------------------------------------------------------------
  // Python strings

  /** Python's str.isspace() for the characters str.split() and str.strip()
      treat as whitespace. */
  predicate IsPySpace(c: char) {
    || c == ' '
    || ('\t' <= c <= '\r')                 // tab, line feed, vertical tab, form feed, carriage return
    || ('\U{1C}' <= c <= '\U{1F}')          // file, group, record and unit separators
    || c == '\U{85}' || c == '\U{A0}' || c == '\U{1680}'
    || ('\U{2000}' <= c <= '\U{200A}')
    || c == '\U{2028}' || c == '\U{2029}' || c == '\U{202F}' || c == '\U{205F}' || c == '\U{3000}'
  }

  predicate NoPySpace(s: string) {
    forall k :: 0 <= k < |s| ==> !IsPySpace(s[k])
  }

  function StripLeft(s: string): (t: string)
    ensures |t| <= |s|
    decreases |s|
  {
    if |s| > 0 && IsPySpace(s[0]) then StripLeft(s[1..]) else s
  }

  function StripRight(s: string): (t: string)
    ensures |t| <= |s|
    decreases |s|
  {
    if |s| > 0 && IsPySpace(s[|s| - 1]) then StripRight(s[..|s| - 1]) else s
  }

  /** str.strip(): whitespace removed from both ends. */
  function Strip(s: string): (t: string)
    ensures |t| <= |s|
  {
    StripRight(StripLeft(s))
  }

  /** A line as `for line in f` yields it loses its newline to strip(), and
      nothing else when it neither starts nor ends with whitespace. */
  lemma StripLine(s: string)
    requires |s| == 0 || (!IsPySpace(s[0]) && !IsPySpace(s[|s| - 1]))
    ensures Strip(s + "\n") == s
  {
    var t := s + "\n";
    if |s| > 0 {
      assert StripLeft(t) == t;
      assert IsPySpace(t[|t| - 1]);
      assert t[..|t| - 1] == s;
      assert StripRight(t) == StripRight(s);
      assert StripRight(s) == s;
    } else {
      assert t[1..] == "";
    }
  }

  /** Length of the run of non-whitespace characters s starts with. */
  function WordLength(s: string): (k: nat)
    ensures k <= |s|
    ensures forall i :: 0 <= i < k ==> !IsPySpace(s[i])
    ensures k < |s| ==> IsPySpace(s[k])
    decreases |s|
  {
    if |s| == 0 || IsPySpace(s[0]) then 0 else 1 + WordLength(s[1..])
  }

  /** str.split() with no argument: the maximal runs of non-whitespace, in order. */
  function Words(s: string): (ws: seq<string>)
    ensures forall i :: 0 <= i < |ws| ==> |ws[i]| >= 1 && NoPySpace(ws[i])
    decreases |s|
  {
    if |s| == 0 then []
    else if IsPySpace(s[0]) then Words(s[1..])
    else
      var k := WordLength(s);
      [s[..k]] + Words(s[k..])
  }

  /** sep.join(ws) for the separator " ". */
  function Join(ws: seq<string>): string
    decreases |ws|
  {
    if |ws| == 0 then "" else if |ws| == 1 then ws[0] else ws[0] + " " + Join(ws[1..])
  }

  /** Splitting what joining produced gives the pieces back, provided each is
      a non-empty run without whitespace. */
  lemma {:induction false} WordsOfJoin(ws: seq<string>)
    requires forall i :: 0 <= i < |ws| ==> |ws[i]| >= 1 && NoPySpace(ws[i])
    ensures Words(Join(ws)) == ws
    decreases |ws|
  {
    if |ws| == 1 {
      WordLengthOfWord(ws[0], "");
      assert ws[0] + "" == ws[0];
    } else if |ws| > 1 {
      var rest := Join(ws[1..]);
      var s := ws[0] + " " + rest;
      assert s == ws[0] + (" " + rest);
      WordLengthOfWord(ws[0], " " + rest);
      assert s[|ws[0]|..] == " " + rest;
      assert (" " + rest)[1..] == rest;
      WordsOfJoin(ws[1..]);
    }
  }

  /** A whitespace-free word followed by whitespace (or nothing) is one run. */
  lemma {:induction false} WordLengthOfWord(w: string, rest: string)
    requires NoPySpace(w)
    requires |rest| == 0 || IsPySpace(rest[0])
    ensures WordLength(w + rest) == |w|
    ensures (w + rest)[..|w|] == w && (w + rest)[|w|..] == rest
    decreases |w|
  {
    if |w| > 0 {
      assert (w + rest)[1..] == w[1..] + rest;
      WordLengthOfWord(w[1..], rest);
    }
  }

  /** Python's int(token) on a token without surrounding whitespace: an
      optional sign and at least one decimal digit; anything else raises
      ValueError, modelled as None. */
  function PyInt(w: string): (r: Option<int>)
    ensures r.Some? ==> |w| >= 1
  {
    var signed := |w| > 0 && (w[0] == '-' || w[0] == '+');
    var body := if signed then w[1..] else w;
    if |body| == 0 || !AllDigits(body) then None
    else if signed && w[0] == '-' then Some(-(DigitsValue(body) as int))
    else Some(DigitsValue(body))
  }

  lemma PyIntOfIntToString(x: int)
    ensures PyInt(IntToString(x)) == Some(x)
  {
    if x < 0 {
      NatToStringValue(-x);
      assert ("-" + NatToString(-x))[1..] == NatToString(-x);
    } else {
      NatToStringValue(x);
    }
  }

  /** list(map(int, words)): None as soon as one word is not an integer. */
  function PyInts(ws: seq<string>): (r: Option<seq<int>>)
    ensures r.Some? <==> forall i :: 0 <= i < |ws| ==> PyInt(ws[i]).Some?
    ensures r.Some? ==> |r.value| == |ws| && forall i :: 0 <= i < |ws| ==> r.value[i] == PyInt(ws[i]).value
    decreases |ws|
  {
    if |ws| == 0 then Some([])
    else
      match PyInt(ws[0])
      case None => None
      case Some(x) =>
        match PyInts(ws[1..])
        case None => None
        case Some(xs) => Some([x] + xs)
  }

  /** The decimal strings of xs, one per value. */
  function IntStrings(xs: seq<int>): (ws: seq<string>)
    ensures |ws| == |xs|
    ensures forall i :: 0 <= i < |xs| ==> ws[i] == IntToString(xs[i])
  {
    seq(|xs|, i requires 0 <= i < |xs| => IntToString(xs[i]))
  }

  /** Joining the decimal strings of xs with spaces and reading them back
      with split() and int() gives xs. */
  lemma ParseJoinedInts(xs: seq<int>)
    ensures PyInts(Words(Join(IntStrings(xs)))) == Some(xs)
  {
    var ws := IntStrings(xs);
    forall i | 0 <= i < |ws|
      ensures |ws[i]| >= 1 && NoPySpace(ws[i])
    {
      assert ws[i] == IntToString(xs[i]);
    }
    WordsOfJoin(ws);
    forall i | 0 <= i < |ws|
      ensures PyInt(ws[i]) == Some(xs[i])
    {
      PyIntOfIntToString(xs[i]);
    }
    var r := PyInts(ws);
    assert r.Some?;
    assert r.value == xs;
  }

  /** The joined decimal strings start and end with a non-space character. */
  lemma JoinedIntsEnds(xs: seq<int>)
    ensures var s := Join(IntStrings(xs)); |s| == 0 || (!IsPySpace(s[0]) && !IsPySpace(s[|s| - 1]))
  {
    JoinEnds(IntStrings(xs));
  }

  lemma {:induction false} JoinEnds(ws: seq<string>)
    requires forall i :: 0 <= i < |ws| ==> |ws[i]| >= 1 && NoPySpace(ws[i])
    ensures var s := Join(ws); (|ws| == 0 <==> |s| == 0) && (|s| == 0 || (!IsPySpace(s[0]) && !IsPySpace(s[|s| - 1])))
    decreases |ws|
  {
    if |ws| > 1 {
      JoinEnds(ws[1..]);
      var s := Join(ws);
      assert s == ws[0] + " " + Join(ws[1..]);
      assert s[0] == ws[0][0];
    }
  }

  /** Each piece followed by one space, all concatenated. */
  function Terminated(ws: seq<string>): string
    decreases |ws|
  {
    if |ws| == 0 then "" else ws[0] + " " + Terminated(ws[1..])
  }

  /** Terminating every piece with a space is joining with spaces plus one
      trailing space. */
  lemma {:induction false} TerminatedJoin(ws: seq<string>)
    requires |ws| > 0
    ensures Terminated(ws) == Join(ws) + " "
    decreases |ws|
  {
    if |ws| > 1 {
      TerminatedJoin(ws[1..]);
      assert Terminated(ws[1..]) == Join(ws[1..]) + " ";
    } else {
      assert ws[1..] == [];
    }
  }

  lemma {:induction false} TerminatedSnoc(ws: seq<string>, w: string)
    ensures Terminated(ws + [w]) == Terminated(ws) + w + " "
    decreases |ws|
  {
    if |ws| == 0 {
      assert ws + [w] == [w];
      assert [w][1..] == [];
    } else {
      assert (ws + [w])[1..] == ws[1..] + [w];
      TerminatedSnoc(ws[1..], w);
    }
  }

  lemma TerminatedIntsSnoc(xs: seq<int>, x: int)
    ensures Terminated(IntStrings(xs + [x])) == Terminated(IntStrings(xs)) + IntToString(x) + " "
  {
    assert IntStrings(xs + [x]) == IntStrings(xs) + [IntToString(x)];
    TerminatedSnoc(IntStrings(xs), IntToString(x));
  }

  // -----------------------------------------------------------------------
  // C++ character classes

  /** C's isspace in the "C" locale. */
  predicate IsCSpace(c: char) {
    c == ' ' || ('\t' <= c <= '\r')
  }

  /** The input with its leading isspace characters skipped. */
  function SkipCSpace(s: string): (t: string)
    ensures |t| <= |s|
    ensures t == s[|s| - |t|..]
    ensures |t| > 0 ==> !IsCSpace(t[0])
    decreases |s|
  {
    if |s| > 0 && IsCSpace(s[0]) then SkipCSpace(s[1..]) else s
  }
}
