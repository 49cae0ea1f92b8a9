/** `loadWordlist` (gosearch/gosearch.go:53-67): the file contents are split
    into lines, each line is trimmed, and the non-empty results are kept in
    file order. Reading the file is an input to the model. */
module Wordlist {
  import opened Outcomes
  import opened Text
  import opened Selection

  /** What `ioutil.ReadFile` gave: an error, or the file's contents. */
  datatype FileRead = ReadFailed(err: string) | ReadOk(data: string)

  /** A line contributes a word when something is left after trimming. */
  predicate HasWord(line: string)
    ensures HasWord(line) <==> exists i :: 0 <= i < |line| && !IsSpace(line[i])
  {
    Trim(line) != ""
  }

  /** The word list of file contents `data`: the trimmed lines that are not
      empty, in file order. */
  function Words(data: string): (words: seq<string>)
    ensures |words| <= |Lines(data)|
  {
    Select(Lines(data), HasWord, Trim)
  }

  /** `loadWordlist` after the read: a read error is returned as is, otherwise
      the loop over the lines appends every non-empty trimmed line. */
  method LoadWordlist(file: FileRead) returns (r: Result<seq<string>, string>)
    ensures file.ReadFailed? ==> r == Failure(file.err)
    ensures file.ReadOk? ==> r == Success(Words(file.data))
  {
    if file.ReadFailed? {
      return Failure(file.err);
    }
    var lines := Lines(file.data);
    var wordlist: seq<string> := [];
    for i := 0 to |lines|
      invariant wordlist == Select(lines[..i], HasWord, Trim)
    {
      var word := Trim(lines[i]);
      if word != "" {
        wordlist := wordlist + [word];
      }
      assert lines[..i + 1] == lines[..i] + [lines[i]];
      SelectSnoc(lines[..i], lines[i], HasWord, Trim);
    }
    assert lines[..|lines|] == lines;
    return Success(wordlist);
  }

  /** Every word is non-empty, has no white space at either end and no line
      feed anywhere. */
  lemma WordsAreTrimmed(data: string)
    ensures forall k :: 0 <= k < |Words(data)| ==>
      Words(data)[k] != "" && IsTrimmed(Words(data)[k]) && '\n' !in Words(data)[k]
  {
    var lines := Lines(data);
    forall k | 0 <= k < |Words(data)|
      ensures Words(data)[k] != "" && IsTrimmed(Words(data)[k]) && '\n' !in Words(data)[k]
    {
      var i := Origin(lines, HasWord, Trim, k);
      if '\n' in Trim(lines[i]) {
        TrimInfix(lines[i], '\n');
      }
    }
  }

  /** The word list is exactly the non-empty trimmed lines, in file order:
      the `k`-th word is the trimmed line `LineOf(data, k)`, these line
      numbers increase with `k`, and every line with a word is one of them. */
  lemma WordsExactly(data: string)
    ensures forall k :: 0 <= k < |Words(data)| ==>
      LineOf(data, k) < |Lines(data)| && Words(data)[k] == Trim(Lines(data)[LineOf(data, k)])
    ensures forall j, k :: 0 <= j < k < |Words(data)| ==> LineOf(data, j) < LineOf(data, k)
    ensures forall i :: 0 <= i < |Lines(data)| && Trim(Lines(data)[i]) != "" ==>
      exists k :: 0 <= k < |Words(data)| && LineOf(data, k) == i
  {
    var lines, words := Lines(data), Words(data);
    SelectExactly(lines, HasWord, Trim);
    forall i | 0 <= i < |lines| && Trim(lines[i]) != ""
      ensures exists k :: 0 <= k < |words| && LineOf(data, k) == i
    {
      assert HasWord(lines[i]);
      var k :| 0 <= k < |words| && Origin(lines, HasWord, Trim, k) == i;
      assert LineOf(data, k) == i;
    }
  }

  /** The line number the `k`-th word comes from. */
  function LineOf(data: string, k: nat): (i: nat)
    requires k < |Words(data)|
    ensures i < |Lines(data)| && HasWord(Lines(data)[i])
  {
    Origin(Lines(data), HasWord, Trim, k)
  }

  /** There are never more words than lines, and there is one line more than
      there are line feeds. */
  lemma WordCount(data: string)
    ensures |Words(data)| <= Occurrences(data, '\n') + 1
  {
  }

  /** `b` is `a` with a carriage return after any of its lines: each line
      of `b` is the same line of `a`, with or without a trailing `'\r'`. */
  predicate CarriageReturnsAdded(a: seq<string>, b: seq<string>) {
    |a| == |b| && forall i :: 0 <= i < |a| ==> b[i] == a[i] || b[i] == a[i] + ['\r']
  }

  /** A file whose lines end in CRLF, on some or all lines and with or
      without a final line feed, gives the same word list as the file with
      those carriage returns removed. */
  lemma CarriageReturnIgnored(a: seq<string>, b: seq<string>)
    requires |a| >= 1
    requires forall i :: 0 <= i < |a| ==> '\n' !in a[i]
    requires CarriageReturnsAdded(a, b)
    ensures Words(Join(b)) == Words(Join(a))
  {
    LinesJoin(a);
    forall i | 0 <= i < |b| ensures '\n' !in b[i] {
      if b[i] != a[i] {
        assert b[i] == a[i] + ['\r'];
      }
    }
    LinesJoin(b);
    SameWords(a, b);
  }

  /** The instance most files are: "a\r\nb\r\n" and "a\nb\n" give the same
      words. */
  lemma CarriageReturnExample()
    ensures Words("a\r\nb\r\n") == Words("a\nb\n")
  {
    var a, b := ["a", "b", ""], ["a\r", "b\r", ""];
    assert Join(a) == "a\nb\n" by {
      assert a[1..] == ["b", ""] && a[1..][1..] == [""];
    }
    assert Join(b) == "a\r\nb\r\n" by {
      assert b[1..] == ["b\r", ""] && b[1..][1..] == [""];
    }
    assert CarriageReturnsAdded(a, b);
    CarriageReturnIgnored(a, b);
  }

  lemma {:induction false} SameWords(a: seq<string>, b: seq<string>)
    requires CarriageReturnsAdded(a, b)
    ensures Select(b, HasWord, Trim) == Select(a, HasWord, Trim)
  {
    if a != [] {
      var n := |a| - 1;
      var x, y := a[n], b[n];
      assert y == x || y == x + ['\r'];
      assert CarriageReturnsAdded(a[..n], b[..n]) by {
        forall i | 0 <= i < n ensures b[..n][i] == a[..n][i] || b[..n][i] == a[..n][i] + ['\r'] {
          assert b[..n][i] == b[i] && a[..n][i] == a[i];
        }
      }
      SameWords(a[..n], b[..n]);
      if y != x {
        TrimIgnoresTrailingSpace(x, '\r');
      }
      assert Trim(y) == Trim(x);
    }
  }
}
