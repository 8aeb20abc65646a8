/**
  The PHP built-ins the import pipeline leans on, stated on Dafny strings:
  trim, explode/implode, empty() on strings, the ASCII part of LOWER(),
  integer interpolation into a string, and the way fgets cuts a file into lines.
*/
module Php {

  // ---------------------------------------------------------------------------
  // trim()

  /** The characters trim() strips by default: space, tab, LF, CR, NUL and vertical tab. */
  predicate IsTrimChar(c: char) {
    c == ' ' || c == '\t' || c == '\n' || c == '\r' || c == '\0' || c == '\U{000B}'
  }

  function TrimStart(s: string): (r: string)
    ensures |r| <= |s| && r == s[|s| - |r|..]
    ensures forall i :: 0 <= i < |s| - |r| ==> IsTrimChar(s[i])
    ensures r == [] || !IsTrimChar(r[0])
  {
    if s != [] && IsTrimChar(s[0]) then TrimStart(s[1..]) else s
  }

  function TrimEnd(s: string): (r: string)
    ensures |r| <= |s| && r == s[..|r|]
    ensures forall i :: |r| <= i < |s| ==> IsTrimChar(s[i])
    ensures r == [] || !IsTrimChar(r[|r| - 1])
  {
    if s != [] && IsTrimChar(s[|s| - 1]) then TrimEnd(s[..|s| - 1]) else s
  }

  /** PHP trim($s): strippable characters cut from both ends. */
  function Trim(s: string): string {
    TrimEnd(TrimStart(s))
  }

  /** Trimming twice changes nothing. */
  lemma TrimIdempotent(s: string)
    ensures Trim(Trim(s)) == Trim(s)
  {
    var t := TrimStart(s);
    var r := TrimEnd(t);
    assert r != [] ==> r[0] == t[0];
    assert TrimStart(r) == r;
    assert TrimEnd(r) == r;
  }

  // ---------------------------------------------------------------------------
  // empty() and the truthiness of strings

  /** A string PHP treats as false: empty($s) and array_filter both drop exactly "" and "0". */
  predicate IsFalsy(s: string) {
    s == "" || s == "0"
  }

  /** empty(array_filter($row)): every field of the row is falsy. */
  predicate AllFalsy(fields: seq<string>) {
    forall i :: 0 <= i < |fields| ==> IsFalsy(fields[i])
  }

  // ---------------------------------------------------------------------------
  // explode() and implode()

  function Occurrences(s: string, d: char): (n: nat)
    ensures n <= |s|
  {
    if s == [] then 0 else (if s[0] == d then 1 else 0) + Occurrences(s[1..], d)
  }

  /** explode($d, $s): the pieces between the delimiters; always at least one piece. */
  function Split(s: string, d: char): (r: seq<string>)
    ensures |r| >= 1
    decreases |s|
  {
    if s == [] then [""]
    else
      var rest := Split(s[1..], d);
      if s[0] == d then [""] + rest else [[s[0]] + rest[0]] + rest[1..]
  }

  /** explode returns one piece more than there are delimiters. */
  lemma {:induction false} SplitCount(s: string, d: char)
    ensures |Split(s, d)| == Occurrences(s, d) + 1
    decreases |s|
  {
    if s != [] {
      SplitCount(s[1..], d);
    }
  }

  /** No piece explode returns holds the delimiter. */
  lemma {:induction false} SplitPiecesLackDelimiter(s: string, d: char)
    ensures forall k :: 0 <= k < |Split(s, d)| ==> d !in Split(s, d)[k]
    decreases |s|
  {
    if s != [] {
      var rest := Split(s[1..], d);
      SplitPiecesLackDelimiter(s[1..], d);
      var r := Split(s, d);
      if s[0] == d {
        assert forall k :: 1 <= k < |r| ==> r[k] == rest[k - 1];
      } else {
        assert r[0] == [s[0]] + rest[0];
        assert forall k :: 1 <= k < |r| ==> r[k] == rest[k];
      }
    }
  }

  /** implode($d, $pieces). */
  function Join(pieces: seq<string>, d: char): string
    requires |pieces| >= 1
  {
    if |pieces| == 1 then pieces[0] else pieces[0] + [d] + Join(pieces[1..], d)
  }

  lemma {:induction false} JoinSplit(s: string, d: char)
    ensures Join(Split(s, d), d) == s
    decreases |s|
  {
    if s != [] {
      var rest := Split(s[1..], d);
      JoinSplit(s[1..], d);
      if s[0] == d {
        assert Split(s, d) == [""] + rest;
        assert ([""] + rest)[1..] == rest;
      } else {
        var r := Split(s, d);
        assert r == [[s[0]] + rest[0]] + rest[1..];
        if |rest| == 1 {
          assert r == [[s[0]] + rest[0]];
        } else {
          assert r[1..] == rest[1..];
          assert Join(rest, d) == rest[0] + [d] + Join(rest[1..], d);
        }
      }
    }
  }

  lemma {:induction false} SplitPrefix(p: string, t: string, d: char)
    requires d !in p
    ensures Split(p + t, d) == [p + Split(t, d)[0]] + Split(t, d)[1..]
    decreases |p|
  {
    if p != [] {
      assert (p + t)[1..] == p[1..] + t;
      SplitPrefix(p[1..], t, d);
      assert [p[0]] + (p[1..] + Split(t, d)[0]) == p + Split(t, d)[0];
    } else {
      assert p + t == t;
      assert p + Split(t, d)[0] == Split(t, d)[0];
      assert [Split(t, d)[0]] + Split(t, d)[1..] == Split(t, d);
    }
  }

  /** Splitting what implode produced gives the pieces back, as long as no piece holds the delimiter. */
  lemma {:induction false} SplitJoin(pieces: seq<string>, d: char)
    requires |pieces| >= 1
    requires forall p :: p in pieces ==> d !in p
    ensures Split(Join(pieces, d), d) == pieces
  {
    var p := pieces[0];
    if |pieces| == 1 {
      SplitPrefix(p, [], d);
      assert p + [] == p;
    } else {
      var tail := Join(pieces[1..], d);
      SplitJoin(pieces[1..], d);
      assert Join(pieces, d) == p + ([d] + tail);
      SplitPrefix(p, [d] + tail, d);
      assert ([d] + tail)[1..] == tail;
      assert Split([d] + tail, d) == [""] + pieces[1..];
      assert p + "" == p;
    }
  }

  // ---------------------------------------------------------------------------
  // LOWER() on names (ASCII letters only)

  function LowerChar(c: char): char {
    if 'A' <= c <= 'Z' then (c as int + 32) as char else c
  }

  /** LOWER($s), letter by letter. */
  function ToLower(s: string): (r: string)
    ensures |r| == |s|
  {
    if s == [] then [] else [LowerChar(s[0])] + ToLower(s[1..])
  }

  /** LOWER(a) = LOWER(b). */
  predicate SameIgnoringCase(a: string, b: string) {
    ToLower(a) == ToLower(b)
  }

  // ---------------------------------------------------------------------------
  // "{$n}": an integer interpolated into a string

  function DigitChar(n: nat): (c: char)
    requires n < 10
    ensures '0' <= c <= '9'
  {
    (n + '0' as int) as char
  }

  predicate AllDigits(s: string) {
    forall i :: 0 <= i < |s| ==> '0' <= s[i] <= '9'
  }

  /** The decimal text of `n`, without leading zeros. */
  function NatToString(n: nat): (r: string)
    ensures |r| >= 1 && AllDigits(r)
    ensures r[0] == '0' ==> r == "0"
  {
    if n < 10 then [DigitChar(n)] else NatToString(n / 10) + [DigitChar(n % 10)]
  }

  /** The number a string of decimal digits denotes. */
  function DigitsValue(s: string): nat
    requires AllDigits(s)
  {
    if s == [] then 0 else DigitsValue(s[..|s| - 1]) * 10 + (s[|s| - 1] as int - '0' as int)
  }

  /** Reading back the interpolated text gives the number: the rendering loses nothing. */
  lemma {:induction false} NatToStringRoundTrip(n: nat)
    ensures DigitsValue(NatToString(n)) == n
  {
    if n >= 10 {
      NatToStringRoundTrip(n / 10);
      var r := NatToString(n);
      assert r[..|r| - 1] == NatToString(n / 10);
    }
  }

  lemma NatToStringInjective(m: nat, n: nat)
    requires NatToString(m) == NatToString(n)
    ensures m == n
  {
    NatToStringRoundTrip(m);
    NatToStringRoundTrip(n);
  }

  // ---------------------------------------------------------------------------
  // fgets(): a file read line by line

  /** A piece fgets can return: non-empty, with a line feed at most at its very end. */
  predicate IsLine(l: string) {
    l != [] && '\n' !in l[..|l| - 1]
  }

  /** The length of the first line of `c`, its line feed included. */
  function LineLength(c: string): (n: nat)
    requires c != []
    ensures 1 <= n <= |c| && IsLine(c[..n])
    ensures n < |c| ==> c[n - 1] == '\n'
  {
    if c[0] == '\n' || |c| == 1 then 1
    else
      var m := LineLength(c[1..]);
      assert c[..m + 1] == [c[0]] + c[1..][..m];
      1 + m
  }

  /** The successive values fgets returns on a handle over `c` before it returns false. */
  function Chunks(c: string): (r: seq<string>)
    ensures r == [] <==> c == []
    decreases |c|
  {
    if c == [] then []
    else
      var n := LineLength(c);
      [c[..n]] + Chunks(c[n..])
  }

  /** Every value fgets returns is a line, and every one but the last ends with its line feed. */
  lemma {:induction false} ChunksAreLines(c: string)
    ensures forall i :: 0 <= i < |Chunks(c)| ==>
      IsLine(Chunks(c)[i]) && (i < |Chunks(c)| - 1 ==> Chunks(c)[i][|Chunks(c)[i]| - 1] == '\n')
    decreases |c|
  {
    if c != [] {
      var n := LineLength(c);
      ChunksUnfold(c);
      ChunksAreLines(c[n..]);
      var r := Chunks(c);
      forall i | 0 < i < |r|
        ensures r[i] == Chunks(c[n..])[i - 1]
      {
      }
      if n == |c| {
        assert c[n..] == [];
      }
    }
  }

  function Concat(ls: seq<string>): string {
    if ls == [] then [] else ls[0] + Concat(ls[1..])
  }

  /** Reading every line and gluing them back together gives the file. */
  lemma {:induction false} ChunksConcat(c: string)
    ensures Concat(Chunks(c)) == c
    decreases |c|
  {
    if c != [] {
      var n := LineLength(c);
      ChunksUnfold(c);
      ConcatCons(c[..n], Chunks(c[n..]));
      ChunksConcat(c[n..]);
      assert c[..n] + c[n..] == c;
    }
  }

  /** Concatenation regroups freely. */
  lemma AppendAssociates<T>(x: seq<T>, y: seq<T>, z: seq<T>)
    ensures x + (y + z) == (x + y) + z
  {
  }

  lemma ConcatCons(l: string, ls: seq<string>)
    ensures Concat([l] + ls) == l + Concat(ls)
  {
    assert ([l] + ls)[0] == l && ([l] + ls)[1..] == ls;
  }

  /** The number of lines fgets yields: one per line feed, plus one for an unterminated last line. */
  lemma {:induction false} ChunksCount(c: string)
    ensures |Chunks(c)| == Occurrences(c, '\n') + (if c != [] && c[|c| - 1] != '\n' then 1 else 0)
    decreases |c|
  {
    if c != [] {
      var n := LineLength(c);
      var l, rest := c[..n], c[n..];
      assert |Chunks(c)| == 1 + |Chunks(rest)| by {
        ChunksUnfold(c);
      }
      ChunksCount(rest);
      assert Occurrences(c, '\n') == Occurrences(l, '\n') + Occurrences(rest, '\n') by {
        assert l + rest == c;
        OccurrencesAppend(l, rest, '\n');
      }
      LineOccurrences(l);
      if n < |c| {
        assert l[|l| - 1] == '\n';
        assert rest != [] && rest[|rest| - 1] == c[|c| - 1];
      } else {
        assert rest == [] && l == c;
      }
    }
  }

  lemma ChunksUnfold(c: string)
    requires c != []
    ensures Chunks(c) == [c[..LineLength(c)]] + Chunks(c[LineLength(c)..])
  {
  }

  lemma {:induction false} OccurrencesAppend(a: string, b: string, d: char)
    ensures Occurrences(a + b, d) == Occurrences(a, d) + Occurrences(b, d)
    decreases |a|
  {
    if a != [] {
      assert (a + b)[1..] == a[1..] + b;
      OccurrencesAppend(a[1..], b, d);
    } else {
      assert a + b == b;
    }
  }

  lemma {:induction false} LineOccurrences(l: string)
    requires IsLine(l)
    ensures Occurrences(l, '\n') == if l[|l| - 1] == '\n' then 1 else 0
  {
    var k := |l| - 1;
    assert l == l[..k] + [l[k]];
    OccurrencesAppend(l[..k], [l[k]], '\n');
    NoOccurrences(l[..k], '\n');
    assert [l[k]][1..] == [];
  }

  lemma {:induction false} NoOccurrences(s: string, d: char)
    requires d !in s
    ensures Occurrences(s, d) == 0
    decreases |s|
  {
    if s != [] {
      NotInTail(s, d);
      NoOccurrences(s[1..], d);
    }
  }

  lemma NotInTail(s: string, d: char)
    requires s != [] && d !in s
    ensures d !in s[1..]
  {
  }

  lemma {:induction false} LineLengthOfLine(a: string, b: string)
    requires IsLine(a) && a[|a| - 1] == '\n'
    ensures LineLength(a + b) == |a|
    decreases |a|
  {
    var c := a + b;
    if |a| > 1 {
      assert c[0] == a[0] && a[0] in a[..|a| - 1];
      assert c[1..] == a[1..] + b;
      assert a[1..][..|a[1..]| - 1] == a[..|a| - 1][1..];
      NotInTail(a[..|a| - 1], '\n');
      LineLengthOfLine(a[1..], b);
    }
  }

  /** A finished line followed by more text: fgets returns that line, then the text's lines. */
  lemma ChunksConsLine(l: string, t: string)
    requires IsLine(l) && l[|l| - 1] == '\n'
    ensures Chunks(l + t) == [l] + Chunks(t)
  {
    LineLengthOfLine(l, t);
    ChunksUnfold(l + t);
    assert (l + t)[..|l|] == l && (l + t)[|l|..] == t;
  }
}
