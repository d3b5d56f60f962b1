/** What `recv` hands the server, and how request lines are cut out of it. */
module Framing {

  /** One result of `recv` on the client socket: the bytes it delivered
      (`Data([])` is a return value of 0, end of stream), or a failure (-1). */
  datatype Chunk = Data(bytes: string) | Failed

  /** A `recv` that delivered at least one byte. */
  predicate Delivered(c: Chunk) {
    c.Data? && c.bytes != []
  }

  /** Everything the chunks delivered, in order. */
  function Concat(cs: seq<Chunk>): string {
    if cs == [] then []
    else Concat(cs[..|cs| - 1]) + (if cs[|cs| - 1].Data? then cs[|cs| - 1].bytes else [])
  }

  /** The stop test of the request loop (Server.cpp:128-129). */
  predicate EndsWithCrlf(s: string) {
    |s| >= 2 && s[|s| - 2] == '\r' && s[|s| - 1] == '\n'
  }

  /** The request handed to the tokeniser: the received text without its final CRLF. */
  function StripCrlf(s: string): (line: string)
    requires EndsWithCrlf(s)
    ensures line + "\r\n" == s
  {
    s[..|s| - 2]
  }

  predicate AllDelivered(cs: seq<Chunk>) {
    forall i :: 0 <= i < |cs| ==> Delivered(cs[i])
  }

  /** Before the last chunk arrived, the text received never ended with
      CRLF: at no earlier read would the request loop have stopped. */
  predicate NoEarlierLine(cs: seq<Chunk>) {
    forall k :: 0 <= k < |cs| ==> !EndsWithCrlf(Concat(cs[..k]))
  }

  lemma NoEarlierLineSnoc(cs: seq<Chunk>, c: Chunk)
    requires NoEarlierLine(cs) && !EndsWithCrlf(Concat(cs))
    ensures NoEarlierLine(cs + [c])
  {
    forall k | 0 <= k < |cs| + 1
      ensures !EndsWithCrlf(Concat((cs + [c])[..k]))
    {
      assert (cs + [c])[..k] == cs[..k];
    }
  }

  /** The request loop's cut is determined by the input: two runs over the
      same chunks that each stop at the first read after which the text ends
      with CRLF consume the same chunks. */
  lemma LineCutUnique(a: seq<Chunk>, b: seq<Chunk>, restA: seq<Chunk>, restB: seq<Chunk>)
    requires a + restA == b + restB
    requires NoEarlierLine(a) && EndsWithCrlf(Concat(a))
    requires NoEarlierLine(b) && EndsWithCrlf(Concat(b))
    ensures a == b
  {
    SamePrefix(a, b, restA, restB);
    SamePrefix(b, a, restB, restA);
  }

  /** Of two splits of the same chunks, the shorter first part is a prefix
      of the longer. */
  lemma SamePrefix(a: seq<Chunk>, b: seq<Chunk>, restA: seq<Chunk>, restB: seq<Chunk>)
    requires a + restA == b + restB
    ensures |a| <= |b| ==> b[..|a|] == a
  {
    if |a| <= |b| {
      assert b[..|a|] == (b + restB)[..|a|];
    }
  }

  /** `used` are the chunks read from `before`, leaving `after`; a read
      past the end fails without consuming anything. */
  predicate Consumed(before: seq<Chunk>, used: seq<Chunk>, after: seq<Chunk>) {
    before == used + after || (after == [] && used == before + [Failed])
  }

  /** One `recv` from the remaining input: the chunk read is accounted for. */
  lemma ReadStep(before: seq<Chunk>, done: seq<Chunk>, rest: seq<Chunk>, c: Chunk, after: seq<Chunk>)
    requires before == done + rest
    requires rest == [] ==> c == Failed && after == []
    requires rest != [] ==> c == rest[0] && after == rest[1..]
    ensures Consumed(before, done + [c], after)
    ensures Delivered(c) ==> before == (done + [c]) + after
  {
    if rest != [] {
      assert rest == [c] + after;
    }
  }

  /** A run of deliveries split into all but the last chunk and the last. */
  lemma AllDeliveredSplit(cs: seq<Chunk>)
    requires AllDelivered(cs) && cs != []
    ensures AllDelivered(cs[..|cs| - 1]) && Delivered(cs[|cs| - 1])
  {
  }

  lemma ConcatSnoc(cs: seq<Chunk>, c: Chunk)
    ensures Concat(cs + [c]) == Concat(cs) + (if c.Data? then c.bytes else [])
  {
    assert (cs + [c])[..|cs|] == cs;
  }
}
