/**
 * The parts of Python 2's `str` that the scripts rely on: whitespace splitting,
 * splitting on one separator character, stripping, substring tests and the
 * decimal and hexadecimal conversions of `str(n)` and `int(s, 16)`.
 */
module Text {
  import opened Wrappers

  /** The characters str.split() and str.strip() treat as whitespace. */
  predicate IsSpace(c: char) {
    c == ' ' || c == '\t' || c == '\n' || c == '\r' || c == '\U{B}' || c == '\U{C}'
  }

  predicate NoSpace(s: string) {
    forall i :: 0 <= i < |s| ==> !IsSpace(s[i])
  }

  predicate AllSpace(s: string) {
    forall i :: 0 <= i < |s| ==> IsSpace(s[i])
  }

  /** A non-empty run of non-whitespace characters. */
  predicate IsWord(w: string) {
    w != [] && NoSpace(w)
  }

  predicate AreWords(ws: seq<string>) {
    forall i :: 0 <= i < |ws| ==> IsWord(ws[i])
  }

  lemma AreWordsAppend(a: seq<string>, b: seq<string>)
    requires AreWords(a) && AreWords(b)
    ensures AreWords(a + b)
  {
    forall i | 0 <= i < |a + b| ensures IsWord((a + b)[i]) {
      if i < |a| {
        assert (a + b)[i] == a[i];
      } else {
        assert (a + b)[i] == b[i - |a|];
      }
    }
  }

  /** Length of the leading run of non-whitespace characters of s. */
  function WordLength(s: string): (n: nat)
    ensures n <= |s|
    ensures NoSpace(s[..n])
    ensures n < |s| ==> IsSpace(s[n])
  {
    if s == [] || IsSpace(s[0]) then 0
    else
      var m := WordLength(s[1..]);
      assert s[..m + 1] == [s[0]] + s[1..][..m];
      m + 1
  }

  /** s.split(): the maximal runs of non-whitespace characters of s, in order. */
  function SplitWhitespace(s: string): (r: seq<string>)
    ensures AreWords(r)
    decreases |s|
  {
    if s == [] then []
    else if IsSpace(s[0]) then SplitWhitespace(s[1..])
    else
      var n := WordLength(s);
      [s[..n]] + SplitWhitespace(s[n..])
  }

  /** sep.join(parts) */
  function Join(parts: seq<string>, sep: string): string {
    if |parts| == 0 then ""
    else if |parts| == 1 then parts[0]
    else parts[0] + sep + Join(parts[1..], sep)
  }

  /** Whitespace splitting undoes joining with one blank: s.split() recovers the words of " ".join(words). */
  lemma {:induction false} SplitJoinWhitespace(words: seq<string>)
    requires AreWords(words)
    ensures SplitWhitespace(Join(words, " ")) == words
  {
    if |words| == 1 {
      assert words[0] + "" == words[0];
      WordLengthOfWord(words[0], "");
      assert words[0][WordLength(words[0])..] == [];
    } else if |words| > 1 {
      var rest := Join(words[1..], " ");
      var s := words[0] + " " + rest;
      assert s == words[0] + (" " + rest);
      WordLengthOfWord(words[0], " " + rest);
      assert s[|words[0]|..] == " " + rest;
      assert (" " + rest)[1..] == rest;
      SplitJoinWhitespace(words[1..]);
    }
  }

  lemma WordLengthOfWord(w: string, rest: string)
    requires w != [] && NoSpace(w)
    requires rest == [] || IsSpace(rest[0])
    ensures WordLength(w + rest) == |w|
    ensures (w + rest)[..|w|] == w
    decreases |w|
  {
    if |w| > 1 {
      assert (w + rest)[1..] == w[1..] + rest;
      WordLengthOfWord(w[1..], rest);
    } else {
      assert (w + rest)[1..] == rest;
    }
  }

  /** c occurs nowhere in s. */
  predicate Lacks(s: string, c: char) {
    forall i :: 0 <= i < |s| ==> s[i] != c
  }

  /** Index of the first c in s, or |s| when there is none. */
  function IndexOf(s: string, c: char): (i: nat)
    ensures i <= |s|
    ensures Lacks(s[..i], c)
    ensures i < |s| ==> s[i] == c
  {
    if s == [] then 0
    else if s[0] == c then 0
    else
      var j := IndexOf(s[1..], c);
      assert s[..j + 1] == [s[0]] + s[1..][..j];
      j + 1
  }

  /** The first c comes no later than any c. */
  lemma {:induction false} IndexOfAtMost(s: string, c: char, j: nat)
    requires j < |s| && s[j] == c
    ensures IndexOf(s, c) <= j
    decreases j
  {
    if s[0] != c {
      IndexOfAtMost(s[1..], c, j - 1);
    }
  }

  /** A character occurs in s exactly when s counts it. */
  lemma CountLacks(s: string, c: char)
    ensures Count(s, c) == 0 <==> Lacks(s, c)
    ensures Lacks(s, c) <==> c !in s
  {
    if s != [] {
      CountLacks(s[1..], c);
      assert forall i :: 1 <= i < |s| ==> s[i] == s[1..][i - 1];
    }
  }

  /** s.split(sep) gives one piece more than there are separators. */
  lemma {:induction false} SplitCount(s: string, sep: char)
    ensures |Split(s, sep)| == Count(s, sep) + 1
    decreases |s|
  {
    var i := IndexOf(s, sep);
    CountLacks(s[..i], sep);
    if i == |s| {
      assert s[..i] == s;
    } else {
      assert s == s[..i] + ([sep] + s[i + 1..]);
      CountAppend(s[..i], [sep] + s[i + 1..], sep);
      assert ([sep] + s[i + 1..])[1..] == s[i + 1..];
      SplitCount(s[i + 1..], sep);
    }
  }

  /** s.split(sep) for a one-character separator: the pieces between separators, empty ones included. */
  function Split(s: string, sep: char): (r: seq<string>)
    ensures |r| >= 1
    decreases |s|
  {
    var i := IndexOf(s, sep);
    if i == |s| then [s]
    else [s[..i]] + Split(s[i + 1..], sep)
  }

  /** A split on a separator that ends the text has an empty last piece. */
  lemma {:induction false} SplitTrailing(s: string, sep: char)
    ensures Split(s + [sep], sep)[|Split(s + [sep], sep)| - 1] == ""
    decreases |s|
  {
    var t := s + [sep];
    var i := IndexOf(t, sep);
    IndexOfAtMost(t, sep, |s|);
    var rest := t[i + 1..];
    var pieces, tail := Split(t, sep), Split(rest, sep);
    assert pieces == [t[..i]] + tail;
    assert pieces[|pieces| - 1] == tail[|tail| - 1];
    if i == |s| {
      assert rest == [];
    } else {
      assert rest == s[i + 1..] + [sep];
      SplitTrailing(s[i + 1..], sep);
    }
  }

  /** The pieces of a split hold no separator. */
  lemma {:induction false} SplitPiecesLack(s: string, sep: char)
    ensures forall k :: 0 <= k < |Split(s, sep)| ==> Lacks(Split(s, sep)[k], sep)
    decreases |s|
  {
    var i := IndexOf(s, sep);
    if i < |s| {
      var rest := Split(s[i + 1..], sep);
      SplitPiecesLack(s[i + 1..], sep);
      assert Split(s, sep) == [s[..i]] + rest;
    }
  }

  /** Joining the pieces of a split on the separator gives the text back. */
  lemma {:induction false} SplitJoinBack(s: string, sep: char)
    ensures Join(Split(s, sep), [sep]) == s
    decreases |s|
  {
    var i := IndexOf(s, sep);
    if i == |s| {
      assert s[..i] == s;
    } else {
      var rest := Split(s[i + 1..], sep);
      SplitJoinBack(s[i + 1..], sep);
      assert Split(s, sep) == [s[..i]] + rest;
      assert ([s[..i]] + rest)[1..] == rest;
      assert s == s[..i] + [sep] + s[i + 1..];
    }
  }

  /** Splitting undoes joining on a separator that occurs in none of the pieces. */
  lemma {:induction false} SplitJoin(parts: seq<string>, sep: char)
    requires |parts| >= 1
    requires forall k :: 0 <= k < |parts| ==> Lacks(parts[k], sep)
    ensures Split(Join(parts, [sep]), sep) == parts
  {
    if |parts| == 1 {
      assert IndexOf(parts[0], sep) == |parts[0]|;
    } else {
      var s := Join(parts, [sep]);
      var rest := Join(parts[1..], [sep]);
      assert s == parts[0] + [sep] + rest;
      IndexOfFirstSep(parts[0], sep, rest);
      assert s[..|parts[0]|] == parts[0];
      assert s[|parts[0]| + 1..] == rest;
      SplitJoin(parts[1..], sep);
    }
  }

  lemma IndexOfFirstSep(p: string, sep: char, rest: string)
    requires Lacks(p, sep)
    ensures IndexOf(p + [sep] + rest, sep) == |p|
    decreases |p|
  {
    if p != [] {
      assert (p + [sep] + rest)[1..] == p[1..] + [sep] + rest;
      IndexOfFirstSep(p[1..], sep, rest);
    }
  }

  /** s.lstrip(): s without its leading whitespace. */
  function StripLeft(s: string): (r: string)
    ensures |r| <= |s| && r == s[|s| - |r|..]
    ensures AllSpace(s[..|s| - |r|])
    ensures r == [] || !IsSpace(r[0])
  {
    if s != [] && IsSpace(s[0]) then
      var r := StripLeft(s[1..]);
      var cut := |s| - |r|;
      assert s[cut..] == s[1..][cut - 1..];
      assert s[..cut] == [s[0]] + s[1..][..cut - 1];
      r
    else s
  }

  /** s.rstrip(): s without its trailing whitespace. */
  function StripRight(s: string): (r: string)
    ensures |r| <= |s| && r == s[..|r|]
    ensures AllSpace(s[|r|..])
    ensures r == [] || !IsSpace(r[|r| - 1])
  {
    if s != [] && IsSpace(s[|s| - 1]) then
      var r := StripRight(s[..|s| - 1]);
      assert s[|r|..] == s[..|s| - 1][|r|..] + [s[|s| - 1]];
      r
    else s
  }

  /** s.strip(): s without its leading and trailing whitespace. */
  function Strip(s: string): (r: string)
    ensures r == [] || (!IsSpace(r[0]) && !IsSpace(r[|r| - 1]))
    ensures NoSpace(s) ==> r == s
  {
    StripRight(StripLeft(s))
  }

  /** Text that starts and ends with a non-blank is left as it is by strip(). */
  lemma StripUntouched(s: string)
    requires s != [] && !IsSpace(s[0]) && !IsSpace(s[|s| - 1])
    ensures Strip(s) == s
  {
    assert StripLeft(s) == s;
  }

  /** Two pieces without the separator, joined by it, split back into those two. */
  lemma SplitPair(a: string, b: string, sep: char)
    requires Lacks(a, sep) && Lacks(b, sep)
    ensures Split(a + [sep] + b, sep) == [a, b]
  {
    assert Join([a, b], [sep]) == a + [sep] + Join([b], [sep]);
    SplitJoin([a, b], sep);
  }

  /** Two words joined by a blank read back, after strip(), as those two words. */
  lemma WordsOfPair(m: string, g: string)
    requires IsWord(m) && IsWord(g)
    ensures SplitWhitespace(Strip(m + " " + g)) == [m, g]
  {
    var t := m + " " + g;
    assert t == Join([m, g], " ");
    assert t[0] == m[0] && t[|t| - 1] == g[|g| - 1];
    StripUntouched(t);
    SplitJoinWhitespace([m, g]);
  }

  /** pat occurs in s starting at index i. */
  predicate OccursAt(s: string, pat: string, i: nat) {
    i + |pat| <= |s| && s[i..i + |pat|] == pat
  }

  /** Python's `pat in s` for strings. */
  predicate Contains(s: string, pat: string) {
    exists i :: 0 <= i <= |s| && OccursAt(s, pat, i)
  }

  /** What occurs in the front or the back part of a string occurs in the whole of it. */
  lemma ContainsInConcat(front: string, back: string, pat: string)
    ensures Contains(front, pat) ==> Contains(front + back, pat)
    ensures Contains(back, pat) ==> Contains(front + back, pat)
  {
    if Contains(front, pat) {
      var i :| 0 <= i <= |front| && OccursAt(front, pat, i);
      assert (front + back)[i..i + |pat|] == front[i..i + |pat|];
      assert OccursAt(front + back, pat, i);
    }
    if Contains(back, pat) {
      var i :| 0 <= i <= |back| && OccursAt(back, pat, i);
      assert (front + back)[|front| + i..|front| + i + |pat|] == back[i..i + |pat|];
      assert OccursAt(front + back, pat, |front| + i);
    }
  }

  /** s.count(c) */
  function Count(s: string, c: char): (n: nat)
    ensures n <= |s|
  {
    if s == [] then 0
    else (if s[0] == c then 1 else 0) + Count(s[1..], c)
  }

  lemma CountAppend(s: string, t: string, c: char)
    ensures Count(s + t, c) == Count(s, c) + Count(t, c)
  {
    if s != [] {
      assert (s + t)[0] == s[0];
      assert (s + t)[1..] == s[1..] + t;
      CountAppend(s[1..], t, c);
    } else {
      assert s + t == t;
    }
  }

  function DigitChar(d: nat): (c: char)
    requires d < 10
    ensures '0' <= c <= '9'
  {
    (48 + d) as char
  }

  predicate IsDigit(c: char) {
    '0' <= c <= '9'
  }

  predicate AllDigits(s: string) {
    forall i :: 0 <= i < |s| ==> IsDigit(s[i])
  }

  function DigitValue(c: char): (d: nat)
    requires IsDigit(c)
    ensures d < 10
  {
    c as int - 48
  }

  /** str(n) for a natural number n: its decimal numeral, without leading zeros. */
  function NatToString(n: nat): (s: string)
    ensures s != [] && AllDigits(s)
    ensures |s| > 1 ==> s[0] != '0'
    ensures n < 10 <==> |s| == 1
  {
    if n < 10 then [DigitChar(n)]
    else
      var p := NatToString(n / 10);
      p + [DigitChar(n % 10)]
  }

  /** str(n) for an integer n. */
  function IntToString(n: int): string {
    if n < 0 then "-" + NatToString(-n) else NatToString(n)
  }

  /** The value of a decimal numeral. */
  function ParseNat(s: string): nat
    requires AllDigits(s)
  {
    if s == [] then 0
    else ParseNat(s[..|s| - 1]) * 10 + DigitValue(s[|s| - 1])
  }

  /** Reading a rendered numeral back gives the number. */
  lemma {:induction false} ParseNatToString(n: nat)
    ensures ParseNat(NatToString(n)) == n
  {
    if n >= 10 {
      var p := NatToString(n / 10);
      assert NatToString(n) == p + [DigitChar(n % 10)];
      assert (p + [DigitChar(n % 10)])[..|p|] == p;
      ParseNatToString(n / 10);
    }
  }

  lemma NatToStringLength(n: nat)
    ensures n < 100 ==> |NatToString(n)| <= 2
    ensures n < 1000 ==> |NatToString(n)| <= 3
  {
  }

  function HexDigitValue(c: char): Option<nat> {
    if '0' <= c <= '9' then Some(c as int - 48)
    else if 'a' <= c <= 'f' then Some(c as int - 87)
    else if 'A' <= c <= 'F' then Some(c as int - 55)
    else None
  }

  /**
   * int(t, 16) for a token of at most two characters without whitespace: one or two
   * hexadecimal digits, or a sign followed by one digit. Anything else raises ValueError
   * (None here), "" and "0x" included, since Python wants a digit after that prefix.
   */
  function HexTokenValue(t: string): (r: Option<int>)
    requires |t| <= 2
    ensures r.Some? ==> -15 <= r.value <= 255
  {
    if |t| == 0 then None
    else if |t| == 1 then
      match HexDigitValue(t[0])
      case Some(d) => Some(d)
      case None => None
    else if t[0] == '+' || t[0] == '-' then
      match HexDigitValue(t[1])
      case Some(d) => var v: int := d; Some(if t[0] == '-' then -v else v)
      case None => None
    else
      match (HexDigitValue(t[0]), HexDigitValue(t[1]))
      case (Some(h), Some(l)) => Some(16 * h + l)
      case _ => None
  }

  function HexChar(d: nat): (c: char)
    requires d < 16
  {
    if d < 10 then (48 + d) as char else (87 + d) as char
  }

  /** A byte written as two lower-case hexadecimal digits, as ipconfig prints it. */
  function HexByte(b: nat): (t: string)
    requires b < 256
    ensures |t| == 2
  {
    [HexChar(b / 16), HexChar(b % 16)]
  }

  /** Every byte printed by ipconfig reads back as itself. */
  lemma HexByteValue(b: nat)
    requires b < 256
    ensures HexTokenValue(HexByte(b)) == Some(b)
    ensures NoSpace(HexByte(b)) && HexByte(b)[0] != '.'
  {
  }
}
