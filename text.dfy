/** Character-level helpers the server relies on from the C and C++ libraries:
    whitespace tokenising as done by `istream >> string`, `std::string::find`,
    `atoi`, and the decimal output of `ostream << size_t`. */
module Text {

  datatype Option<T> = None | Some(value: T)

  const Crlf: string := "\r\n"

  /** `isspace` in the C locale: space, \t, \n, \v, \f, \r. */
  predicate IsSpace(c: char) {
    c == ' ' || c == '\t' || c == '\n' || c == '\r' || c as int == 11 || c as int == 12
  }

  predicate NoSpace(s: string) {
    forall i :: 0 <= i < |s| ==> !IsSpace(s[i])
  }

  /** What one successful `>>` extraction into a string can yield. */
  predicate IsWord(w: string) {
    |w| > 0 && NoSpace(w)
  }

  /** The longest prefix of `s` without whitespace. */
  function TakeWord(s: string): (w: string)
    ensures |w| <= |s| && w == s[..|w|]
    ensures NoSpace(w)
    ensures |w| < |s| ==> IsSpace(s[|w|])
  {
    if s == [] || IsSpace(s[0]) then [] else [s[0]] + TakeWord(s[1..])
  }

  /** The whitespace-separated tokens of `s`, in order: the values that
      successive `>>` extractions from an `istringstream` over `s` produce. */
  function Tokens(s: string): (ts: seq<string>)
    ensures forall i :: 0 <= i < |ts| ==> IsWord(ts[i])
    decreases |s|
  {
    if s == [] then []
    else if IsSpace(s[0]) then Tokens(s[1..])
    else
      var w := TakeWord(s);
      assert |w| > 0;
      [w] + Tokens(s[|w|..])
  }

  /** `s` with its whitespace removed: what the tokens of `s` are made of. */
  function Letters(s: string): string {
    if s == [] then []
    else if IsSpace(s[0]) then Letters(s[1..])
    else [s[0]] + Letters(s[1..])
  }

  function Flatten(ws: seq<string>): string {
    if ws == [] then [] else ws[0] + Flatten(ws[1..])
  }

  /** Words separated (and preceded) by single spaces. */
  function Spaced(ws: seq<string>): string {
    if ws == [] then [] else " " + ws[0] + Spaced(ws[1..])
  }

  lemma {:induction false} LettersOfWord(w: string)
    requires NoSpace(w)
    ensures Letters(w) == w
  {
    if w != [] {
      LettersOfWord(w[1..]);
    }
  }

  lemma {:induction false} LettersAppend(a: string, b: string)
    ensures Letters(a + b) == Letters(a) + Letters(b)
  {
    if a == [] {
      assert a + b == b;
    } else {
      assert (a + b)[0] == a[0] && (a + b)[1..] == a[1..] + b;
      LettersAppend(a[1..], b);
      if !IsSpace(a[0]) {
        assert [a[0]] + (Letters(a[1..]) + Letters(b)) == ([a[0]] + Letters(a[1..])) + Letters(b);
      }
    }
  }

  lemma {:induction false} FlattenAppend(xs: seq<string>, ys: seq<string>)
    ensures Flatten(xs + ys) == Flatten(xs) + Flatten(ys)
  {
    if xs == [] {
      assert xs + ys == ys;
    } else {
      assert (xs + ys)[0] == xs[0] && (xs + ys)[1..] == xs[1..] + ys;
      FlattenAppend(xs[1..], ys);
      assert xs[0] + (Flatten(xs[1..]) + Flatten(ys)) == (xs[0] + Flatten(xs[1..])) + Flatten(ys);
    }
  }

  /** Tokenising loses only whitespace: the tokens, glued together, are the
      non-whitespace characters of `s`. */
  lemma {:induction false} TokensKeepLetters(s: string)
    ensures Flatten(Tokens(s)) == Letters(s)
    decreases |s|
  {
    if s == [] {
    } else if IsSpace(s[0]) {
      TokensKeepLetters(s[1..]);
    } else {
      var w := TakeWord(s);
      var rest := s[|w|..];
      assert s == w + rest;
      TokensKeepLetters(rest);
      LettersAppend(w, rest);
      LettersOfWord(w);
    }
  }

  lemma {:induction false} TakeWordAppend(a: string, b: string)
    requires !NoSpace(a)
    ensures TakeWord(a + b) == TakeWord(a)
  {
    if IsSpace(a[0]) {
    } else {
      assert (a + b)[1..] == a[1..] + b;
      TakeWordAppend(a[1..], b);
    }
  }

  lemma {:induction false} TakeWordOfWord(w: string, rest: string)
    requires NoSpace(w)
    requires rest == [] || IsSpace(rest[0])
    ensures TakeWord(w + rest) == w
  {
    if w == [] {
    } else {
      assert (w + rest)[1..] == w[1..] + rest;
      TakeWordOfWord(w[1..], rest);
    }
  }

  /** Splitting after whitespace does not change the tokens. */
  lemma {:induction false} TokensAppend(a: string, b: string)
    requires a == [] || IsSpace(a[|a| - 1])
    ensures Tokens(a + b) == Tokens(a) + Tokens(b)
    decreases |a|
  {
    if a == [] {
      assert a + b == b;
    } else if IsSpace(a[0]) {
      assert (a + b)[1..] == a[1..] + b;
      TokensAppend(a[1..], b);
    } else {
      assert !NoSpace(a) by { assert IsSpace(a[|a| - 1]); }
      TakeWordAppend(a, b);
      var w := TakeWord(a);
      assert |w| < |a|;
      assert (a + b)[|w|..] == a[|w|..] + b;
      TokensAppend(a[|w|..], b);
    }
  }

  /** A word followed by whitespace (or nothing) is the first token. */
  lemma {:induction false} TokensOfWordThen(w: string, rest: string)
    requires IsWord(w)
    requires rest == [] || IsSpace(rest[0])
    ensures Tokens(w + rest) == [w] + Tokens(rest)
  {
    TakeWordOfWord(w, rest);
    assert (w + rest)[|w|..] == rest;
  }

  lemma {:induction false} TokensOfWord(w: string)
    requires IsWord(w)
    ensures Tokens(w) == [w]
  {
    TokensOfWordThen(w, []);
    assert w + [] == w;
  }

  lemma {:induction false} TokensOfSpaces(s: string)
    requires forall i :: 0 <= i < |s| ==> IsSpace(s[i])
    ensures Tokens(s) == []
  {
    if s != [] {
      TokensOfSpaces(s[1..]);
    }
  }

  lemma SpaceThen(x: string)
    ensures Tokens(" " + x) == Tokens(x)
  {
    TokensAppend(" ", x);
    TokensOfSpaces(" ");
  }

  /** Printing words with spaces and tokenising them again gives the words
      back, whatever whitespace-led text follows. */
  lemma {:induction false} TokensOfSpaced(ws: seq<string>, rest: string)
    requires forall i :: 0 <= i < |ws| ==> IsWord(ws[i])
    requires rest == [] || IsSpace(rest[0])
    ensures Tokens(Spaced(ws) + rest) == ws + Tokens(rest)
  {
    if ws == [] {
      assert Spaced(ws) + rest == rest;
    } else {
      var w, more := ws[0], Spaced(ws[1..]);
      var tail := more + rest;
      Regroup4(" ", w, more, rest);
      SpaceThen(w + tail);
      TokensOfSpaced(ws[1..], rest);
      SpacedLeadsWithSpace(ws[1..], rest);
      TokensOfWordThen(w, tail);
      HeadThen(ws, Tokens(rest));
    }
  }

  lemma HeadThen(ws: seq<string>, more: seq<string>)
    requires ws != []
    ensures [ws[0]] + (ws[1..] + more) == ws + more
  {
    assert ws == [ws[0]] + ws[1..];
  }

  lemma Regroup4(a: string, b: string, c: string, d: string)
    ensures a + b + c + d == a + (b + (c + d))
  {
  }

  lemma SpacedLeadsWithSpace(ws: seq<string>, rest: string)
    requires rest == [] || IsSpace(rest[0])
    ensures var s := Spaced(ws) + rest; s == [] || IsSpace(s[0])
  {
    if ws != [] {
      assert (Spaced(ws) + rest)[0] == ' ';
    }
  }

  /** Words printed with spaces tokenise back to the same words. */
  lemma TokensOfSpacedWords(ws: seq<string>)
    requires forall i :: 0 <= i < |ws| ==> IsWord(ws[i])
    ensures Tokens(Spaced(ws)) == ws
  {
    TokensOfSpaced(ws, []);
    assert Spaced(ws) + [] == Spaced(ws);
    assert ws + [] == ws;
  }

  lemma {:induction false} SpacedHasNoCr(ws: seq<string>, i: nat)
    requires forall k :: 0 <= k < |ws| ==> IsWord(ws[k])
    requires i < |Spaced(ws)|
    ensures Spaced(ws)[i] != '\r'
  {
    if i > 0 {
      var tail := Spaced(ws[1..]);
      assert Spaced(ws) == " " + ws[0] + tail;
      if i - 1 >= |ws[0]| {
        SpacedHasNoCr(ws[1..], i - 1 - |ws[0]|);
      }
    }
  }

  /** `pat` occurs in `s` at offset `i`. */
  predicate OccursAt(s: string, pat: string, i: nat) {
    i + |pat| <= |s| && s[i..i + |pat|] == pat
  }

  lemma OccursAtStart(a: string, b: string)
    ensures OccursAt(a + b, a, 0)
  {
    assert (a + b)[0..|a|] == a;
  }

  /** One mismatching character rules an occurrence out. */
  lemma NotOccursAt(s: string, pat: string, i: nat, k: nat)
    requires k < |pat| && i + k < |s| && s[i + k] != pat[k]
    ensures !OccursAt(s, pat, i)
  {
    if i + |pat| <= |s| {
      assert s[i..i + |pat|][k] == s[i + k];
    }
  }

  /** `s.find(pat, from)`: the first offset at or after `from` where `pat`
      occurs, `None` standing for `npos`. */
  function FindFrom(s: string, pat: string, from: nat): (r: Option<nat>)
    ensures r.Some? ==> from <= r.value && OccursAt(s, pat, r.value)
    ensures r.Some? ==> forall j :: from <= j < r.value ==> !OccursAt(s, pat, j)
    ensures r.None? ==> forall j :: from <= j ==> !OccursAt(s, pat, j)
    decreases |s| - from
  {
    if from + |pat| > |s| then None
    else if s[from..from + |pat|] == pat then Some(from)
    else FindFrom(s, pat, from + 1)
  }

  /** The first occurrence at or after `from` determines `find`. */
  lemma FindFromIs(s: string, pat: string, from: nat, k: nat)
    requires from <= k && OccursAt(s, pat, k)
    requires forall j :: from <= j < k ==> !OccursAt(s, pat, j)
    ensures FindFrom(s, pat, from) == Some(k)
  {
  }

  /** A pattern whose first character does not occur before it is first
      found where it is placed. */
  lemma FirstOccurrence(before: string, pat: string, after: string)
    requires pat != [] && forall i :: 0 <= i < |before| ==> before[i] != pat[0]
    ensures FindFrom(before + pat + after, pat, 0) == Some(|before|)
  {
    var s := before + pat + after;
    assert s[|before|..|before| + |pat|] == pat;
    forall j | 0 <= j < |before|
      ensures !OccursAt(s, pat, j)
    {
      assert s[j] == before[j];
      NotOccursAt(s, pat, j, 0);
    }
    FindFromIs(s, pat, 0, |before|);
  }

  predicate NoCr(s: string) {
    forall i :: 0 <= i < |s| ==> s[i] != '\r'
  }

  lemma NoCrAppend(a: string, b: string)
    requires NoCr(a) && NoCr(b)
    ensures NoCr(a + b)
  {
    forall i | 0 <= i < |a + b|
      ensures (a + b)[i] != '\r'
    {
      if i >= |a| {
        assert (a + b)[i] == b[i - |a|];
      }
    }
  }

  /** Searching from `|before|`, the first CRLF is the one after a
      CR-free `mid`. */
  lemma CrlfAfter(before: string, mid: string, rest: string)
    requires NoCr(mid)
    ensures FindFrom(before + mid + Crlf + rest, Crlf, |before|) == Some(|before| + |mid|)
  {
    var s := before + mid + Crlf + rest;
    var p := |before|;
    assert s[p + |mid|..p + |mid| + 2] == Crlf;
    forall j | p <= j < p + |mid|
      ensures !OccursAt(s, Crlf, j)
    {
      assert s[j] == mid[j - p];
      NotOccursAt(s, Crlf, j, 0);
    }
    FindFromIs(s, Crlf, p, p + |mid|);
  }

  /** The middle part of a concatenation is the slice at its offset. */
  lemma SliceMiddle(a: string, b: string, c: string)
    ensures (a + b + c)[|a|..|a| + |b|] == b
  {
  }

  lemma Regroup(a: string, b: string, c: string, d: string, e: string)
    ensures a + b + c + d + e == a + b + (c + d + e)
    ensures a + b + c + d + e == a + (b + c) + d + e
    ensures a + b + c + d + e == (a + b) + c + (d + e)
  {
  }

  predicate IsDigit(c: char) {
    '0' <= c <= '9'
  }

  predicate AllDigits(s: string) {
    forall i :: 0 <= i < |s| ==> IsDigit(s[i])
  }

  function DigitChar(d: nat): (c: char)
    requires d < 10
  {
    ('0' as int + d) as char
  }

  function DigitValue(c: char): (d: nat)
    requires IsDigit(c)
  {
    c as int - '0' as int
  }

  /** The value of a string of decimal digits, most significant first. */
  function DigitsValue(s: string): nat
    requires AllDigits(s)
  {
    if s == [] then 0 else DigitsValue(s[..|s| - 1]) * 10 + DigitValue(s[|s| - 1])
  }

  /** The longest prefix of `s` made of decimal digits. */
  function LeadingDigits(s: string): (d: string)
    ensures |d| <= |s| && d == s[..|d|]
    ensures AllDigits(d)
    ensures |d| < |s| ==> !IsDigit(s[|d|])
  {
    if s == [] || !IsDigit(s[0]) then [] else [s[0]] + LeadingDigits(s[1..])
  }

  function SkipSpace(s: string): (t: string)
    ensures t == [] || !IsSpace(t[0])
  {
    if s != [] && IsSpace(s[0]) then SkipSpace(s[1..]) else s
  }

  /** `atoi`: leading whitespace, an optional sign, then the value of the
      leading decimal digits; 0 when there are none. Overflow is not modelled. */
  function Atoi(s: string): (n: int)
    ensures (s == [] || (!IsSpace(s[0]) && !IsDigit(s[0]) && s[0] != '+' && s[0] != '-')) ==> n == 0
  {
    var t := SkipSpace(s);
    if t != [] && t[0] == '-' then -(DigitsValue(LeadingDigits(t[1..])) as int)
    else if t != [] && t[0] == '+' then DigitsValue(LeadingDigits(t[1..]))
    else DigitsValue(LeadingDigits(t))
  }

  /** `ostream << n` for an unsigned `n`: its decimal digits, without leading zeros. */
  function NatToString(n: nat): (s: string)
    ensures IsWord(s) && AllDigits(s)
    ensures s[0] == '0' ==> s == "0"
  {
    if n < 10 then [DigitChar(n)] else NatToString(n / 10) + [DigitChar(n % 10)]
  }

  lemma {:induction false} DigitsValueOfNatToString(n: nat)
    ensures DigitsValue(NatToString(n)) == n
  {
    var s := NatToString(n);
    if n >= 10 {
      DigitsValueOfNatToString(n / 10);
      assert s[..|s| - 1] == NatToString(n / 10);
    }
  }

  lemma LeadingDigitsOfDigits(s: string)
    requires AllDigits(s)
    ensures LeadingDigits(s) == s
  {
  }

  /** Parsing what the server prints for a number gives the number back. */
  lemma AtoiOfNatToString(n: nat)
    ensures Atoi(NatToString(n)) == n
  {
    var s := NatToString(n);
    assert SkipSpace(s) == s;
    LeadingDigitsOfDigits(s);
    DigitsValueOfNatToString(n);
  }
}
