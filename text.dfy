/** The text side of the output protocol: decimal formatting of integers as the
    `{}` placeholder writes them, words joined by single spaces, whitespace
    trimming, and the inverse operations (splitting and integer parsing) that
    a reader of the command lines would apply. */
module Text {
  import opened Entities

  predicate IsDigit(c: char)
  {
    '0' <= c <= '9'
  }

  /** ASCII whitespace; the only whitespace the commands can hold is ' '. */
  predicate IsWhitespace(c: char)
  {
    c == ' ' || c == '\t' || c == '\n' || c == '\r' || c == '\U{B}' || c == '\U{C}'
  }

  predicate NoSpace(w: string)
  {
    forall i :: 0 <= i < |w| ==> w[i] != ' '
  }

  function DigitChar(d: nat): (c: char)
    requires d < 10
    ensures IsDigit(c)
  {
    (('0' as int) + d) as char
  }

  function DigitValue(c: char): (d: nat)
    requires IsDigit(c)
    ensures d < 10
  {
    (c as int) - ('0' as int)
  }

  /** Decimal digits of n, most significant first, without leading zeros. */
  function NatToString(n: nat): (s: string)
    ensures |s| >= 1
    ensures forall i :: 0 <= i < |s| ==> IsDigit(s[i])
    ensures s[0] == '0' ==> s == "0"
  {
    if n < 10 then [DigitChar(n)] else NatToString(n / 10) + [DigitChar(n % 10)]
  }

  /** Decimal text of an integer, with a leading '-' exactly when it is
      negative and no leading zeros: the canonical form. */
  function IntToString(n: int): (s: string)
    ensures |s| >= 1 && IsDigit(s[|s| - 1])
    ensures forall i :: 0 <= i < |s| ==> IsDigit(s[i]) || (i == 0 && s[i] == '-')
    ensures s[0] == '-' <==> n < 0
    ensures n < 0 ==> |s| >= 2 && s[1] != '0'
    ensures n >= 0 && s[0] == '0' ==> s == "0"
  {
    if n < 0 then "-" + NatToString(-n) else NatToString(n)
  }

  function ParseNat(s: string): Option<nat>
  {
    if |s| == 0 || !IsDigit(s[|s| - 1]) then None
    else if |s| == 1 then Some(DigitValue(s[0]))
    else match ParseNat(s[..|s| - 1])
      case None => None
      case Some(v) => Some(v * 10 + DigitValue(s[|s| - 1]))
  }

  function ParseInt(s: string): Option<int>
  {
    if |s| >= 1 && s[0] == '-' then
      match ParseNat(s[1..])
      case None => None
      case Some(v) => Some(-(v as int))
    else
      match ParseNat(s)
      case None => None
      case Some(v) => Some(v)
  }

  lemma {:induction false} ParseNatOfNatToString(n: nat)
    ensures ParseNat(NatToString(n)) == Some(n)
  {
    if n >= 10 {
      var s := NatToString(n);
      assert s[..|s| - 1] == NatToString(n / 10);
      ParseNatOfNatToString(n / 10);
      assert DigitValue(s[|s| - 1]) == n % 10;
    }
  }

  /** Parsing the formatted text of an integer gives the integer back. */
  lemma ParseIntOfIntToString(n: int)
    ensures ParseInt(IntToString(n)) == Some(n)
  {
    var s := IntToString(n);
    if n < 0 {
      var digits := NatToString(-n);
      ParseNatOfNatToString(-n);
      assert s == "-" + digits;
      assert s[0] == '-' && s[1..] == digits;
    } else {
      ParseNatOfNatToString(n);
      assert IsDigit(s[0]);
    }
  }

  /** The index of the last space of s, or -1 when it has none. */
  function LastSpace(s: string): (k: int)
    ensures -1 <= k < |s|
    ensures k >= 0 ==> s[k] == ' '
    ensures forall i :: k < i < |s| ==> s[i] != ' '
  {
    if s == [] then -1
    else if s[|s| - 1] == ' ' then |s| - 1
    else LastSpace(s[..|s| - 1])
  }

  /** The pieces of s between its spaces, in order (always at least one). */
  function Split(s: string): (ws: seq<string>)
    ensures |ws| >= 1
    decreases |s|
  {
    var k := LastSpace(s);
    if k < 0 then [s] else Split(s[..k]) + [s[k + 1..]]
  }

  /** Appending a space and a word without spaces appends that word to the
      pieces. */
  lemma SplitSnoc(s: string, w: string)
    requires NoSpace(w)
    ensures Split(s + " " + w) == Split(s) + [w]
  {
    var t := s + " " + w;
    var k := LastSpace(t);
    assert t[|s|] == ' ';
    assert k == |s|;
    assert t[..k] == s;
    assert t[k + 1..] == w;
  }

  /** Three space-free words joined by single spaces split back into them. */
  lemma SplitThreeWords(a: string, b: string, c: string)
    requires NoSpace(a) && NoSpace(b) && NoSpace(c)
    ensures Split(a + " " + b + " " + c) == [a, b, c]
  {
    SplitWord(a);
    SplitSnoc(a, b);
    SplitSnoc(a + " " + b, c);
    assert [a] + [b] + [c] == [a, b, c];
  }

  /** A word without spaces is a single piece. */
  lemma SplitWord(w: string)
    requires NoSpace(w)
    ensures Split(w) == [w]
  {
  }

  /** s without its leading whitespace: a suffix of s, everything cut off is
      whitespace, and what remains does not start with whitespace. */
  function TrimStart(s: string): (r: string)
    ensures |r| <= |s| && r == s[|s| - |r|..]
    ensures forall i :: 0 <= i < |s| - |r| ==> IsWhitespace(s[i])
    ensures r == [] || !IsWhitespace(r[0])
  {
    if s != [] && IsWhitespace(s[0]) then TrimStart(s[1..]) else s
  }

  /** s without its trailing whitespace: a prefix of s, everything cut off is
      whitespace, and what remains does not end with whitespace. */
  function TrimEnd(s: string): (r: string)
    ensures |r| <= |s| && r == s[..|r|]
    ensures forall i :: |r| <= i < |s| ==> IsWhitespace(s[i])
    ensures r == [] || !IsWhitespace(r[|r| - 1])
  {
    if s != [] && IsWhitespace(s[|s| - 1]) then TrimEnd(s[..|s| - 1]) else s
  }

  /** Appending a space and a word that neither starts nor ends with
      whitespace to text that is empty or space-led keeps it space-led, with
      no whitespace right after the space or at the end. */
  lemma SpaceLedAppend(pre: string, w: string)
    requires pre == [] || (|pre| >= 2 && pre[0] == ' ' && !IsWhitespace(pre[1]))
    requires |w| >= 1 && !IsWhitespace(w[0]) && !IsWhitespace(w[|w| - 1])
    ensures var t := pre + " " + w;
            |t| >= 2 && t[0] == ' ' && !IsWhitespace(t[1]) && !IsWhitespace(t[|t| - 1])
  {
    var t := pre + " " + w;
    assert t[|t| - 1] == w[|w| - 1];
    if pre == [] {
      assert t == " " + w;
      assert t[1] == w[0];
    } else {
      assert t[0] == pre[0] && t[1] == pre[1];
    }
  }

  /** Text made of one space and a word that neither starts nor ends with
      whitespace, trimmed and put after a word and a space, gives the word
      followed by the text. */
  lemma TrimmedAfterWord(spaced: string, w: string, s: string)
    requires spaced == w + " "
    requires |s| >= 2 && s[0] == ' ' && !IsWhitespace(s[1]) && !IsWhitespace(s[|s| - 1])
    ensures spaced + TrimStart(TrimEnd(s)) == w + s
  {
    TrimSpaceLed(s);
    AppendAfterSpace(w, s);
  }

  lemma TrimSpaceLed(s: string)
    requires |s| >= 2 && s[0] == ' ' && !IsWhitespace(s[1]) && !IsWhitespace(s[|s| - 1])
    ensures TrimStart(TrimEnd(s)) == s[1..]
  {
    var r := s[1..];
    assert s == " " + r;
    TrimLeadingSpace(r);
  }

  lemma AppendAfterSpace(w: string, s: string)
    requires |s| >= 1 && s[0] == ' '
    ensures (w + " ") + s[1..] == w + s
  {
    assert s == " " + s[1..];
  }

  /** Trimming a single leading space off text that neither starts nor ends
      with whitespace gives that text. */
  lemma TrimLeadingSpace(r: string)
    requires |r| >= 1 && !IsWhitespace(r[0]) && !IsWhitespace(r[|r| - 1])
    ensures TrimStart(TrimEnd(" " + r)) == r
  {
    var s := " " + r;
    assert s[|s| - 1] == r[|r| - 1];
    assert TrimEnd(s) == s;
    assert s[1..] == r;
  }
}
