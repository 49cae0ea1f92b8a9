/** `getDirectories` (gosearch/gosearch.go:69-88): every word of the list is
    appended to the base URL and requested in turn; a URL is confirmed when
    the request ends, after any redirects, at that very URL with status 200.
    The first transport error ends the whole probe. The HTTP client is an
    oracle from the requested URL to what the request gave. */
module Directories {
  import opened Outcomes
  import opened Selection

  /** What `http.Get` gave for one URL: a transport error, or the URL the
      request ended at after redirects together with the status code. */
  datatype Reply = TransportError(err: string) | Response(finalUrl: string, status: int)

  /** `http.StatusOK`. */
  const StatusOK: int := 200

  /** `fmt.Sprintf("%s/%s", baseURL, word)`. */
  function Url(base: string, word: string): (u: string)
    ensures base <= u && |u| == |base| + 1 + |word| && u[|base|] == '/' && u[|base| + 1..] == word
  {
    base + "/" + word
  }

  /** The request for `url` confirms it: no redirect away from it, status 200. */
  predicate Confirms(url: string, reply: Reply)
    ensures Confirms(url, reply) ==> !Fails(reply)
  {
    reply.Response? && reply.finalUrl == url && reply.status == StatusOK
  }

  predicate Fails(reply: Reply) {
    reply.TransportError?
  }

  /** The URL probed for each word. */
  function Locate(base: string): string -> string {
    word => Url(base, word)
  }

  /** The words whose probe confirms their URL. */
  function Confirmed(base: string, fetch: string -> Reply): string -> bool {
    word => Confirms(Url(base, word), fetch(Url(base, word)))
  }

  /** The URLs requested for `words`, in order. */
  function Urls(base: string, words: seq<string>): (r: seq<string>)
    ensures |r| == |words|
    ensures forall i :: 0 <= i < |words| ==> r[i] == Url(base, words[i])
  {
    if words == [] then [] else Urls(base, words[..|words| - 1]) + [Url(base, words[|words| - 1])]
  }

  /** The position of the first word whose request fails in transport, or
      `|words|` when none does. */
  function FirstFailure(base: string, words: seq<string>, fetch: string -> Reply): (n: nat)
    ensures n <= |words|
    ensures forall j :: 0 <= j < n ==> !Fails(fetch(Url(base, words[j])))
    ensures n < |words| ==> Fails(fetch(Url(base, words[n])))
  {
    if words == [] then 0
    else if Fails(fetch(Url(base, words[0]))) then 0
    else
      var n := 1 + FirstFailure(base, words[1..], fetch);
      assert forall j :: 1 <= j < n ==> words[1..][j - 1] == words[j];
      n
  }

  /** How many requests are made: up to and including the first failing one. */
  function Probed(base: string, words: seq<string>, fetch: string -> Reply): (n: nat)
    ensures n <= |words|
    ensures |words| > 0 ==> n > 0
    ensures forall j :: 0 <= j < n - 1 ==> !Fails(fetch(Url(base, words[j])))
    ensures n < |words| ==> n > 0 && Fails(fetch(Url(base, words[n - 1])))
  {
    var f := FirstFailure(base, words, fetch);
    if f < |words| then f + 1 else |words|
  }

  /** What `getDirectories` returns: the error of the first failing request,
      or the confirmed URLs in word-list order. */
  function ProbeOutcome(base: string, words: seq<string>, fetch: string -> Reply): (r: Result<seq<string>, string>)
    ensures r.Success? ==> |r.value| <= |words|
    ensures r.Failure? ==> |words| > 0
  {
    var f := FirstFailure(base, words, fetch);
    if f < |words| then Failure(fetch(Url(base, words[f])).err)
    else Success(Select(words, Confirmed(base, fetch), Locate(base)))
  }

  /** `getDirectories`: request every word's URL in order, append the
      confirmed ones, return on the first transport error. `requested` is
      the sequence of URLs handed to the HTTP client. */
  method GetDirectories(base: string, words: seq<string>, fetch: string -> Reply)
    returns (r: Result<seq<string>, string>, requested: seq<string>)
    ensures r == ProbeOutcome(base, words, fetch)
    ensures requested == Urls(base, words[..Probed(base, words, fetch)])
  {
    var directories: seq<string> := [];
    requested := [];
    for i := 0 to |words|
      invariant i <= FirstFailure(base, words, fetch)
      invariant directories == Select(words[..i], Confirmed(base, fetch), Locate(base))
      invariant requested == Urls(base, words[..i])
    {
      var fullUrl := Url(base, words[i]);
      var reply := fetch(fullUrl);
      assert words[..i + 1] == words[..i] + [words[i]];
      assert words[..i + 1][..i] == words[..i];
      requested := requested + [fullUrl];
      if reply.TransportError? {
        return Failure(reply.err), requested;
      }
      if reply.finalUrl == fullUrl && reply.status == StatusOK {
        directories := directories + [fullUrl];
      }
      SelectSnoc(words[..i], words[i], Confirmed(base, fetch), Locate(base));
    }
    assert words[..|words|] == words;
    return Success(directories), requested;
  }

  /** The probe fails exactly when some word's request fails in transport,
      and then with the error of the first such request, whatever was
      confirmed before it. */
  lemma FailsIffSomeRequestFails(base: string, words: seq<string>, fetch: string -> Reply)
    ensures ProbeOutcome(base, words, fetch).Failure? <==>
      exists j :: 0 <= j < |words| && Fails(fetch(Url(base, words[j])))
    ensures ProbeOutcome(base, words, fetch).Failure? ==>
      exists j :: 0 <= j < |words| && Fails(fetch(Url(base, words[j])))
        && (forall i :: 0 <= i < j ==> !Fails(fetch(Url(base, words[i]))))
        && ProbeOutcome(base, words, fetch).error == fetch(Url(base, words[j])).err
  {
    var f := FirstFailure(base, words, fetch);
    if f < |words| {
      assert Fails(fetch(Url(base, words[f])));
    }
  }

  /** No request is made after the first failing one: the last URL
      requested is that of the failing word and every earlier request went
      through; without a failure every word is requested. */
  lemma LastRequestIsTheFailure(base: string, words: seq<string>, fetch: string -> Reply)
    ensures var n := Probed(base, words, fetch);
      && (ProbeOutcome(base, words, fetch).Success? ==> n == |words|)
      && (ProbeOutcome(base, words, fetch).Failure? ==>
            && 1 <= n
            && Fails(fetch(Url(base, words[n - 1])))
            && forall j :: 0 <= j < n - 1 ==> !Fails(fetch(Url(base, words[j]))))
  {
  }

  /** A successful probe returns exactly the confirmed URLs, in word-list
      order: the `k`-th directory is the URL of word `WordOf(...)`, which
      that request confirmed; these word positions increase with `k`; and
      every word whose request confirms its URL is among them. */
  lemma DirectoriesExactly(base: string, words: seq<string>, fetch: string -> Reply)
    requires ProbeOutcome(base, words, fetch).Success?
    ensures var dirs := ProbeOutcome(base, words, fetch).value;
      && |dirs| <= |words|
      && (forall k :: 0 <= k < |dirs| ==>
            var j := WordOf(base, words, fetch, k);
            j < |words| && dirs[k] == Url(base, words[j]) && Confirms(dirs[k], fetch(dirs[k])))
      && (forall k, l :: 0 <= k < l < |dirs| ==> WordOf(base, words, fetch, k) < WordOf(base, words, fetch, l))
      && (forall j :: 0 <= j < |words| && Confirms(Url(base, words[j]), fetch(Url(base, words[j]))) ==>
            exists k :: 0 <= k < |dirs| && WordOf(base, words, fetch, k) == j)
  {
    var dirs := ProbeOutcome(base, words, fetch).value;
    SelectExactly(words, Confirmed(base, fetch), Locate(base));
    forall j | 0 <= j < |words| && Confirms(Url(base, words[j]), fetch(Url(base, words[j])))
      ensures exists k :: 0 <= k < |dirs| && WordOf(base, words, fetch, k) == j
    {
      assert Confirmed(base, fetch)(words[j]);
      var k :| 0 <= k < |dirs| && Origin(words, Confirmed(base, fetch), Locate(base), k) == j;
      assert WordOf(base, words, fetch, k) == j;
    }
  }

  /** The position in the word list of the word the `k`-th directory comes from. */
  function WordOf(base: string, words: seq<string>, fetch: string -> Reply, k: nat): (j: nat)
    requires k < |Select(words, Confirmed(base, fetch), Locate(base))|
    ensures j < |words|
  {
    Origin(words, Confirmed(base, fetch), Locate(base), k)
  }
}
