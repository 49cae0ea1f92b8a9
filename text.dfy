/** The string operations of Go's `strings` package that gosearch relies on,
    restricted to ASCII: `TrimSpace`, `Split` on "\n", `ToUpper`, `ToLower`,
    `HasPrefix` (Dafny's sequence prefix `<=`) and `Contains` (`in`). */
module Text {

  /** The ASCII white space `strings.TrimSpace` removes. */
  predicate IsSpace(c: char) {
    c == ' ' || c == '\t' || c == '\n' || c == '\U{000B}' || c == '\U{000C}' || c == '\r'
  }

  predicate AllSpace(s: string) {
    forall i :: 0 <= i < |s| ==> IsSpace(s[i])
  }

  /** Neither starts nor ends with white space. */
  predicate IsTrimmed(s: string) {
    s == [] || (!IsSpace(s[0]) && !IsSpace(s[|s| - 1]))
  }

  /** Only white space lies before `lo` and from `hi` on: cutting `s` to
      `s[lo..hi]` removes nothing but white space. */
  predicate IsCut(s: string, lo: int, hi: int) {
    && 0 <= lo <= hi <= |s|
    && (forall i :: 0 <= i < lo ==> IsSpace(s[i]))
    && (forall i :: hi <= i < |s| ==> IsSpace(s[i]))
  }

  /** The position of the first character that is not white space, or `|s|`. */
  function LeadingSpace(s: string): (lo: nat)
    ensures IsCut(s, lo, |s|)
    ensures lo < |s| ==> !IsSpace(s[lo])
  {
    if s == [] || !IsSpace(s[0]) then 0
    else
      var lo := 1 + LeadingSpace(s[1..]);
      assert forall i :: 1 <= i < lo ==> s[1..][i - 1] == s[i];
      lo
  }

  /** The position just after the last character from `lo` on that is not
      white space, or `lo`. */
  function TrailingSpace(s: string, lo: nat): (hi: nat)
    requires lo <= |s|
    ensures IsCut(s, 0, hi) && lo <= hi
    ensures lo < hi ==> !IsSpace(s[hi - 1])
    decreases |s|
  {
    if |s| == lo || !IsSpace(s[|s| - 1]) then |s|
    else
      var hi := TrailingSpace(s[..|s| - 1], lo);
      assert forall i :: hi <= i < |s| - 1 ==> s[..|s| - 1][i] == s[i];
      hi
  }

  /** `strings.TrimSpace` on ASCII text: `s` without its leading and trailing
      white space. */
  function Trim(s: string): (r: string)
    ensures IsTrimmed(r)
    ensures r == [] <==> AllSpace(s)
    ensures exists lo, hi :: IsCut(s, lo, hi) && r == s[lo..hi]
  {
    var lo := LeadingSpace(s);
    var hi := TrailingSpace(s, lo);
    assert lo < hi ==> s[lo..hi][0] == s[lo] && s[lo..hi][hi - lo - 1] == s[hi - 1];
    assert IsCut(s, lo, hi);
    s[lo..hi]
  }

  /** Only one infix of `s` is trimmed and has only white space around it,
      so the contract of `Trim` determines its result. */
  lemma TrimUnique(s: string, lo: int, hi: int)
    requires IsCut(s, lo, hi) && IsTrimmed(s[lo..hi])
    ensures s[lo..hi] == Trim(s)
  {
    var lo', hi' := LeadingSpace(s), TrailingSpace(s, LeadingSpace(s));
    if lo < hi {
      assert s[lo..hi][0] == s[lo] && s[lo..hi][hi - lo - 1] == s[hi - 1];
      assert lo == lo';
    } else {
      assert AllSpace(s);
    }
  }

  /** Trimming only removes characters: whatever is left was in `s`. */
  lemma TrimInfix(s: string, c: char)
    requires c in Trim(s)
    ensures c in s
  {
    var lo := LeadingSpace(s);
    var hi := TrailingSpace(s, lo);
    var k :| 0 <= k < hi - lo && s[lo..hi][k] == c;
    assert s[lo + k] == c;
  }

  /** Trailing white space, such as the carriage return a CRLF file leaves at
      the end of each line, does not change the trimmed text. */
  lemma TrimIgnoresTrailingSpace(s: string, c: char)
    requires IsSpace(c)
    ensures Trim(s + [c]) == Trim(s)
  {
    var lo := LeadingSpace(s);
    var hi := TrailingSpace(s, lo);
    var s' := s + [c];
    assert s'[lo..hi] == s[lo..hi];
    assert IsCut(s', lo, hi);
    TrimUnique(s', lo, hi);
  }

  /** The number of times `c` occurs in `s`. */
  function Occurrences(s: string, c: char): (n: nat)
    ensures n <= |s|
    ensures n == 0 <==> c !in s
  {
    if s == [] then 0 else (if s[0] == c then 1 else 0) + Occurrences(s[1..], c)
  }

  /** `strings.Split(s, "\n")`: the pieces between the line feeds, always at
      least one (an empty `s` gives one empty piece). */
  function Lines(s: string): (r: seq<string>)
    ensures |r| == Occurrences(s, '\n') + 1
    ensures forall i :: 0 <= i < |r| ==> '\n' !in r[i]
  {
    if s == [] then [""]
    else
      var rest := Lines(s[1..]);
      if s[0] == '\n' then [""] + rest
      else [[s[0]] + rest[0]] + rest[1..]
  }

  /** `strings.Join(pieces, "\n")`, the inverse of `Lines`. */
  function Join(pieces: seq<string>): string {
    if pieces == [] then ""
    else if |pieces| == 1 then pieces[0]
    else pieces[0] + "\n" + Join(pieces[1..])
  }

  /** Joining a piece in front of at least one more. */
  lemma JoinCons(p: string, ps: seq<string>)
    requires ps != []
    ensures Join([p] + ps) == p + "\n" + Join(ps)
  {
    assert ([p] + ps)[1..] == ps;
  }

  /** Putting a character in front of the first piece puts it in front of
      the join. */
  lemma JoinGlue(c: char, ps: seq<string>)
    requires ps != []
    ensures Join([[c] + ps[0]] + ps[1..]) == [c] + Join(ps)
  {
    if |ps| > 1 {
      assert ps == [ps[0]] + ps[1..];
      JoinCons(ps[0], ps[1..]);
      JoinCons([c] + ps[0], ps[1..]);
    }
  }

  /** Splitting loses nothing: joining the pieces back gives the text. */
  lemma {:induction false} JoinLines(s: string)
    ensures Join(Lines(s)) == s
  {
    if s != [] {
      var rest := Lines(s[1..]);
      JoinLines(s[1..]);
      assert s == [s[0]] + s[1..];
      if s[0] == '\n' {
        JoinCons("", rest);
      } else {
        JoinGlue(s[0], rest);
      }
    }
  }

  /** Splitting a join of line-feed-free pieces gives the pieces back. */
  lemma {:induction false} LinesJoin(pieces: seq<string>)
    requires |pieces| >= 1
    requires forall i :: 0 <= i < |pieces| ==> '\n' !in pieces[i]
    ensures Lines(Join(pieces)) == pieces
  {
    if |pieces| == 1 {
      LinesOfPiece(pieces[0]);
    } else {
      LinesJoin(pieces[1..]);
      LinesPrefix(pieces[0], Join(pieces[1..]));
    }
  }

  /** A piece without a line feed is a single line. */
  lemma {:induction false} LinesOfPiece(p: string)
    requires '\n' !in p
    ensures Lines(p) == [p]
  {
    if p != [] {
      LinesOfPiece(p[1..]);
      assert [p[0]] + p[1..] == p;
    }
  }

  /** A line-feed-free piece followed by a line feed becomes its own line. */
  lemma {:induction false} LinesPrefix(p: string, t: string)
    requires '\n' !in p
    ensures Lines(p + "\n" + t) == [p] + Lines(t)
  {
    var s := p + "\n" + t;
    if p == [] {
      assert s == "\n" + t && s[0] == '\n' && s[1..] == t;
    } else {
      assert s[0] == p[0] && s[1..] == p[1..] + "\n" + t;
      LinesPrefix(p[1..], t);
      var rest := Lines(s[1..]);
      assert rest[0] == p[1..] && rest[1..] == Lines(t);
      assert [p[0]] + p[1..] == p;
    }
  }

  function UpperChar(c: char): char {
    if 'a' <= c <= 'z' then c - 'a' + 'A' else c
  }

  function LowerChar(c: char): char {
    if 'A' <= c <= 'Z' then c - 'A' + 'a' else c
  }

  /** `strings.ToUpper` on ASCII letters; every other character is kept. */
  function ToUpper(s: string): (r: string)
    ensures |r| == |s|
    ensures forall i :: 0 <= i < |s| ==> r[i] == UpperChar(s[i])
  {
    if s == [] then [] else [UpperChar(s[0])] + ToUpper(s[1..])
  }

  /** `strings.ToLower` on ASCII letters; every other character is kept. */
  function ToLower(s: string): (r: string)
    ensures |r| == |s|
    ensures forall i :: 0 <= i < |s| ==> r[i] == LowerChar(s[i])
  {
    if s == [] then [] else [LowerChar(s[0])] + ToLower(s[1..])
  }

  /** Two strings that differ only in ASCII letter case. */
  predicate EqualFold(a: string, b: string) {
    |a| == |b| && forall i :: 0 <= i < |a| ==> LowerChar(a[i]) == LowerChar(b[i])
  }

  /** Lower-casing is blind to case: strings equal up to case lower-case to
      the same string, and only those. */
  lemma ToLowerFold(a: string, b: string)
    ensures ToLower(a) == ToLower(b) <==> EqualFold(a, b)
  {
    if EqualFold(a, b) {
      assert forall i :: 0 <= i < |a| ==> ToLower(a)[i] == ToLower(b)[i];
    }
    if ToLower(a) == ToLower(b) {
      assert forall i :: 0 <= i < |a| ==> LowerChar(a[i]) == ToLower(a)[i] == ToLower(b)[i];
    }
  }
}
