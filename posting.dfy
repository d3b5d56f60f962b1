/** How the POST handler reads an article body and which groups it files the
    article under (Server.cpp:216-249). */
module Posting {
  import opened Text
  import opened Framing
  import opened Repository

  /** The end of an article: a line holding only a dot. */
  const Terminator: string := "\r\n.\r\n"

  /** The header whose value lists the groups; the source skips its 11 characters. */
  const NewsgroupsHeader: string := "Newsgroups:"

  /** The received text holds the terminator: the body is complete. */
  predicate BodyComplete(text: string) {
    FindFrom(text, Terminator, 0).Some?
  }

  /** Before the last chunk arrived, the text received never held the
      terminator: at no earlier read would the POST loop have stopped. */
  predicate NoEarlierBody(cs: seq<Chunk>) {
    forall k :: 0 <= k < |cs| ==> !BodyComplete(Concat(cs[..k]))
  }

  lemma NoEarlierBodySnoc(cs: seq<Chunk>, c: Chunk)
    requires NoEarlierBody(cs) && !BodyComplete(Concat(cs))
    ensures NoEarlierBody(cs + [c])
  {
    forall k | 0 <= k < |cs| + 1
      ensures !BodyComplete(Concat((cs + [c])[..k]))
    {
      assert (cs + [c])[..k] == cs[..k];
    }
  }

  lemma HeaderHasNoCr(text: string, p: nat, e: nat)
    requires OccursAt(text, NewsgroupsHeader, p)
    requires p <= e < p + |NewsgroupsHeader|
    ensures text[e] != '\r'
  {
    assert text[e] == text[p..p + |NewsgroupsHeader|][e - p];
  }

  /** The group names on the `Newsgroups:` header (Server.cpp:228-233): the
      tokens between the first `Newsgroups:` anywhere in the text and the next
      CRLF, or the end of the text when no CRLF follows. */
  function HeaderNames(text: string): (names: seq<string>)
    ensures forall i :: 0 <= i < |names| ==> IsWord(names[i])
  {
    var found := FindFrom(text, NewsgroupsHeader, 0);
    if found.None? then []
    else
      var start := found.value + |NewsgroupsHeader|;
      var end := FindFrom(text, Crlf, found.value);
      if end.None? then Tokens(text[start..])
      else
        LineEndFollowsHeader(text, found.value, end.value);
        Tokens(text[start..end.value])
  }

  /** A CRLF found from the header's offset lies past the header. */
  lemma LineEndFollowsHeader(text: string, p: nat, e: nat)
    requires OccursAt(text, NewsgroupsHeader, p)
    requires OccursAt(text, Crlf, e) && p <= e
    ensures p + |NewsgroupsHeader| <= e
  {
    if e < p + |NewsgroupsHeader| {
      HeaderHasNoCr(text, p, e);
    }
  }

  lemma HeaderNamesBetween(text: string, p: nat, e: nat)
    requires FindFrom(text, NewsgroupsHeader, 0) == Some(p)
    requires FindFrom(text, Crlf, p) == Some(e)
    ensures p + |NewsgroupsHeader| <= e <= |text|
    ensures HeaderNames(text) == Tokens(text[p + |NewsgroupsHeader|..e])
  {
    LineEndFollowsHeader(text, p, e);
  }

  lemma HeaderAndNamesHaveNoCr(names: seq<string>)
    requires forall i :: 0 <= i < |names| ==> IsWord(names[i])
    ensures NoCr(NewsgroupsHeader + Spaced(names))
  {
    SpacedNoCr(names);
    HeaderNoCr();
    NoCrAppend(NewsgroupsHeader, Spaced(names));
  }

  lemma HeaderNoCr()
    ensures NoCr(NewsgroupsHeader)
  {
  }

  lemma SpacedNoCr(names: seq<string>)
    requires forall i :: 0 <= i < |names| ==> IsWord(names[i])
    ensures NoCr(Spaced(names))
  {
    forall i | 0 <= i < |Spaced(names)|
      ensures Spaced(names)[i] != '\r'
    {
      SpacedHasNoCr(names, i);
    }
  }

  /** No `Newsgroups:` starts before offset `n` of `text`. */
  predicate NoHeaderBefore(text: string, n: nat) {
    forall j :: 0 <= j < n ==> !OccursAt(text, NewsgroupsHeader, j)
  }

  /** Text without a capital `N` holds no start of the header. */
  lemma NoHeaderIn(before: string, after: string)
    requires forall i :: 0 <= i < |before| ==> before[i] != 'N'
    ensures NoHeaderBefore(before + after, |before|)
  {
    forall j | 0 <= j < |before|
      ensures !OccursAt(before + after, NewsgroupsHeader, j)
    {
      NotOccursAt(before + after, NewsgroupsHeader, j, 0);
    }
  }

  lemma HeaderFirstAt(before: string, value: string, rest: string)
    requires NoHeaderBefore(before + NewsgroupsHeader + value + Crlf + rest, |before|)
    ensures FindFrom(before + NewsgroupsHeader + value + Crlf + rest, NewsgroupsHeader, 0) == Some(|before|)
  {
    var text := before + NewsgroupsHeader + value + Crlf + rest;
    Regroup(before, NewsgroupsHeader, value, Crlf, rest);
    SliceMiddle(before, NewsgroupsHeader, value + Crlf + rest);
    FindFromIs(text, NewsgroupsHeader, 0, |before|);
  }

  lemma HeaderLineEndsAt(before: string, value: string, rest: string)
    requires NoCr(NewsgroupsHeader + value)
    ensures FindFrom(before + NewsgroupsHeader + value + Crlf + rest, Crlf, |before|)
            == Some(|before| + |NewsgroupsHeader| + |value|)
  {
    Regroup(before, NewsgroupsHeader, value, Crlf, rest);
    CrlfAfter(before, NewsgroupsHeader + value, rest);
  }

  lemma HeaderValueAt(before: string, value: string, rest: string)
    ensures var k := |before| + |NewsgroupsHeader|;
      (before + NewsgroupsHeader + value + Crlf + rest)[k..k + |value|] == value
  {
    Regroup(before, NewsgroupsHeader, value, Crlf, rest);
    SliceMiddle(before + NewsgroupsHeader, value, Crlf + rest);
  }

  /** The header value is what lies between the first `Newsgroups:` and
      the CRLF after it. */
  lemma HeaderNamesOfValue(before: string, value: string, rest: string)
    requires NoHeaderBefore(before + NewsgroupsHeader + value + Crlf + rest, |before|)
    requires NoCr(NewsgroupsHeader + value)
    ensures HeaderNames(before + NewsgroupsHeader + value + Crlf + rest) == Tokens(value)
  {
    HeaderFirstAt(before, value, rest);
    HeaderLineEndsAt(before, value, rest);
    HeaderValueAt(before, value, rest);
    HeaderNamesBetween(before + NewsgroupsHeader + value + Crlf + rest, |before|, |before| + |NewsgroupsHeader| + |value|);
  }

  /** An article whose first `Newsgroups:` is followed by space-separated
      names and a CRLF is filed under exactly those names, in order. */
  lemma HeaderNamesOfHeaderLine(before: string, names: seq<string>, rest: string)
    requires NoHeaderBefore(before + NewsgroupsHeader + Spaced(names) + Crlf + rest, |before|)
    requires forall i :: 0 <= i < |names| ==> IsWord(names[i])
    ensures HeaderNames(before + NewsgroupsHeader + Spaced(names) + Crlf + rest) == names
  {
    HeaderAndNamesHaveNoCr(names);
    HeaderNamesOfValue(before, Spaced(names), rest);
    TokensOfSpacedWords(names);
  }

  // ---------------------------------------------------------------------
  // The receive loop as written in Server.cpp:220-246, kept to exhibit
  // three defects that the server model (Nntp.Server.Post) corrects.
  // ---------------------------------------------------------------------

  /** The exit test at Server.cpp:243: the result of `find` is used as a
      boolean, so the loop is left unless the terminator sits at offset 0,
      including when it is absent (`npos` is non-zero). */
  function LeavesLoopAsWritten(text: string): (leaves: bool)
    ensures leaves <==> !OccursAt(text, Terminator, 0)
  {
    FindFrom(text, Terminator, 0) != Some(0)
  }

  /** The loop at Server.cpp:220-246 as written, from the groups and the
      number of stored articles on entry: every pass appends the chunk, files
      the not-yet-stored id under the header's groups, and applies the exit
      test above. Returns the groups afterwards and the text to store, or
      `None` when a read failed (the 441 path). A read past the end of the
      chunks fails. */
  function PostLoopAsWritten(groups: Groups, stored: nat, text: string, chunks: seq<Chunk>): (r: (Groups, Option<string>))
    ensures Grows(groups, r.0)
    ensures r.1.Some? ==> text <= r.1.value && !OccursAt(r.1.value, Terminator, 0)
    decreases |chunks|
  {
    if chunks == [] || chunks[0].Failed? then (groups, None)
    else
      var t := text + chunks[0].bytes;
      var g := Register(groups, HeaderNames(t), stored + 1);
      if LeavesLoopAsWritten(t) then (g, Some(t))
      else
        var r := PostLoopAsWritten(g, stored, t, chunks[1..]);
        GrowsTransitive(groups, g, r.0);
        r
  }

  /** As written, a first chunk without the terminator ends the POST: the
      article is stored although its body has not been received. */
  lemma AsWrittenStoresIncompleteBody()
    ensures PostLoopAsWritten(map[], 0, "", [Data("body"), Data(Terminator)]).1 == Some("body")
    ensures !BodyComplete("body")
  {
    assert "" + "body" == "body";
  }

  /** A pass that does not leave the loop files the id and goes on. */
  lemma AsWrittenPass(groups: Groups, stored: nat, text: string, bytes: string, chunks: seq<Chunk>)
    requires !LeavesLoopAsWritten(text + bytes)
    ensures PostLoopAsWritten(groups, stored, text, [Data(bytes)] + chunks)
            == PostLoopAsWritten(Register(groups, HeaderNames(text + bytes), stored + 1), stored, text + bytes, chunks)
  {
    assert ([Data(bytes)] + chunks)[1..] == chunks;
  }

  /** A text that opens with the terminator and names group `a` keeps the
      as-written loop going and is filed under `a`. */
  lemma OpensWithTerminator(rest: string)
    ensures var t := Terminator + NewsgroupsHeader + " a" + Crlf + rest;
      !LeavesLoopAsWritten(t) && HeaderNames(t) == ["a"]
  {
    var t := Terminator + NewsgroupsHeader + " a" + Crlf + rest;
    assert Spaced(["a"]) == " a" by {
      assert Spaced(["a"][1..]) == [];
    }
    assert IsWord("a");
    assert forall i :: 0 <= i < |Terminator| ==> Terminator[i] != 'N';
    NoHeaderIn(Terminator, NewsgroupsHeader + " a" + Crlf + rest);
    assert t == Terminator + (NewsgroupsHeader + " a" + Crlf + rest);
    HeaderNamesOfHeaderLine(Terminator, ["a"], rest);
    assert FindFrom(t, Terminator, 0) == Some(0) by {
      Regroup(Terminator, NewsgroupsHeader, " a", Crlf, rest);
      OccursAtStart(Terminator, NewsgroupsHeader + (" a" + Crlf + rest));
    }
  }

  lemma FiledTwice()
    ensures Register(Register(map[], ["a"], 1), ["a"], 1) == map["a" := [1, 1]]
  {
    var empty: Groups := map[];
    assert ["a"][..0] == [];
    var g1 := Register(empty, ["a"], 1);
    assert g1 == Add(empty, "a", 1) == map["a" := [1]];
    assert Register(g1, ["a"], 1) == Add(g1, "a", 1) == g1["a" := [1] + [1]];
    assert [1] + [1] == [1, 1];
  }

  /** As written, a body that begins with the terminator keeps the loop
      going, and each pass files the id again; a read failure then answers
      441 while group `a` lists id 1 twice and no article 1 exists. */
  lemma AsWrittenRegistersEveryPass()
    ensures var first := Terminator + NewsgroupsHeader + " a" + Crlf;
      PostLoopAsWritten(map[], 0, "", [Data(first), Data("x"), Failed]) == (map["a" := [1, 1]], None)
  {
    var first := Terminator + NewsgroupsHeader + " a" + Crlf;
    OpensWithTerminator("");
    OpensWithTerminator("x");
    assert first + "" == first;
    AsWrittenTwoPasses(first, "x");
    FiledTwice();
  }

  /** As written, two chunks that each keep the loop going, then a failed
      read: the id is filed once per pass and no article is stored. */
  lemma AsWrittenTwoPasses(bytes: string, more: string)
    requires !LeavesLoopAsWritten(bytes) && !LeavesLoopAsWritten(bytes + more)
    ensures PostLoopAsWritten(map[], 0, "", [Data(bytes), Data(more), Failed])
      == (Register(Register(map[], HeaderNames(bytes), 1), HeaderNames(bytes + more), 1), None)
  {
    var empty: Groups := map[];
    var g1 := Register(empty, HeaderNames(bytes), 1);
    assert "" + bytes == bytes;
    AsWrittenPass(empty, 0, "", bytes, [Data(more), Failed]);
    AsWrittenPass(g1, 0, bytes, more, [Failed]);
    assert [Data(bytes), Data(more), Failed] == [Data(bytes)] + [Data(more), Failed];
    assert [Data(more), Failed] == [Data(more)] + [Failed];
  }

  /** `n` reads on a closed connection: each `recv` returns 0. */
  function EndOfStream(n: nat): seq<Chunk> {
    if n == 0 then [] else [Data([])] + EndOfStream(n - 1)
  }

  /** Filing `id` under `g` in an empty index. */
  lemma FileFirst(g: string, id: nat)
    ensures Register(map[], [g], id) == map[g := Repeat(id, 1)]
  {
    var empty: Groups := map[];
    assert [g][..0] == [];
    assert Register(empty, [g], id) == Add(empty, g, id);
    assert Repeat(id, 1) == Repeat(id, 0) + [id] == [id];
  }

  /** Filing `id` once more under the only group `g`. */
  lemma FileOnceMore(g: string, id: nat, k: nat)
    ensures Register(map[g := Repeat(id, k)], [g], id) == map[g := Repeat(id, k + 1)]
  {
    var groups: Groups := map[g := Repeat(id, k)];
    assert [g][..0] == [];
    assert Register(groups, [g], id) == Add(groups, g, id);
    assert Repeat(id, k + 1) == Repeat(id, k) + [id];
  }

  /** `n` further passes of the registration loop with the same names. */
  function Refiled(groups: Groups, names: seq<string>, id: nat, n: nat): Groups
    decreases n
  {
    if n == 0 then groups else Refiled(Register(groups, names, id), names, id, n - 1)
  }

  /** As written, a text that keeps the loop going never leaves it at end of
      stream: each read of 0 bytes files the pending id again. */
  lemma {:induction false} AsWrittenSpinsFrom(groups: Groups, stored: nat, text: string, n: nat, rest: seq<Chunk>)
    requires !LeavesLoopAsWritten(text)
    ensures PostLoopAsWritten(groups, stored, text, EndOfStream(n) + rest)
      == PostLoopAsWritten(Refiled(groups, HeaderNames(text), stored + 1, n), stored, text, rest)
    decreases n
  {
    if n == 0 {
      assert EndOfStream(n) + rest == rest;
    } else {
      EndOfStreamFirst(n, rest);
      AsWrittenEmptyPass(groups, stored, text, EndOfStream(n - 1) + rest);
      AsWrittenSpinsFrom(Register(groups, HeaderNames(text), stored + 1), stored, text, n - 1, rest);
    }
  }

  /** Refiling under the only group `g` appends the id once per pass. */
  lemma {:induction false} RefiledOneGroup(g: string, id: nat, k: nat, n: nat)
    ensures Refiled(map[g := Repeat(id, k)], [g], id, n) == map[g := Repeat(id, k + n)]
    decreases n
  {
    if n > 0 {
      FileOnceMore(g, id, k);
      RefiledOneGroup(g, id, k + 1, n - 1);
    }
  }

  lemma EndOfStreamFirst(n: nat, rest: seq<Chunk>)
    requires n > 0
    ensures EndOfStream(n) + rest == [Data([])] + (EndOfStream(n - 1) + rest)
  {
  }

  /** As written, a read of 0 bytes appends nothing, files the id again and
      reads on. */
  lemma AsWrittenEmptyPass(groups: Groups, stored: nat, text: string, chunks: seq<Chunk>)
    requires !LeavesLoopAsWritten(text)
    ensures PostLoopAsWritten(groups, stored, text, [Data([])] + chunks)
      == PostLoopAsWritten(Register(groups, HeaderNames(text), stored + 1), stored, text, chunks)
  {
    assert text + [] == text;
    AsWrittenPass(groups, stored, text, [], chunks);
  }

  /** As written, after a first chunk that opens with the terminator and
      names group `a`, any number `n` of end-of-stream reads leaves the loop
      running, with id 1 filed `n + 1` times and no article stored: on a
      closed connection the POST never ends and the list grows without
      bound. */
  lemma AsWrittenSpinsAtEndOfStream(n: nat, rest: seq<Chunk>)
    ensures var first := Terminator + NewsgroupsHeader + " a" + Crlf;
      PostLoopAsWritten(map[], 0, "", [Data(first)] + (EndOfStream(n) + rest))
      == PostLoopAsWritten(map["a" := Repeat(1, n + 1)], 0, first, rest)
  {
    var first := Terminator + NewsgroupsHeader + " a" + Crlf;
    OpensWithTerminator("");
    assert first + "" == first;
    AsWrittenOneGroupSpins(first, "a", n, rest);
  }

  /** As written, a first chunk that keeps the loop going and names one
      group `g`, followed by `n` reads at end of stream, files id 1 under `g`
      `n + 1` times. */
  lemma AsWrittenOneGroupSpins(bytes: string, g: string, n: nat, rest: seq<Chunk>)
    requires !LeavesLoopAsWritten(bytes) && HeaderNames(bytes) == [g]
    ensures PostLoopAsWritten(map[], 0, "", [Data(bytes)] + (EndOfStream(n) + rest))
      == PostLoopAsWritten(map[g := Repeat(1, n + 1)], 0, bytes, rest)
  {
    RefiledFromEmpty(g, 1, n);
    AsWrittenFirstChunkSpins(map[], 0, bytes, n, rest, map[g := Repeat(1, n + 1)]);
  }

  /** As written, a first chunk that keeps the loop going followed by `n`
      reads at end of stream files the pending id `n + 1` times. */
  lemma AsWrittenFirstChunkSpins(groups: Groups, stored: nat, bytes: string, n: nat, rest: seq<Chunk>, filed: Groups)
    requires !LeavesLoopAsWritten(bytes)
    requires filed == Refiled(groups, HeaderNames(bytes), stored + 1, n + 1)
    ensures PostLoopAsWritten(groups, stored, "", [Data(bytes)] + (EndOfStream(n) + rest))
      == PostLoopAsWritten(filed, stored, bytes, rest)
  {
    var text: string := "";
    assert text + bytes == bytes;
    AsWrittenPassThenSpins(groups, stored, text, bytes, n, rest);
  }

  /** As written, a chunk that keeps the loop going followed by `n` reads at
      end of stream files the pending id `n + 1` times. */
  lemma AsWrittenPassThenSpins(groups: Groups, stored: nat, text: string, bytes: string, n: nat, rest: seq<Chunk>)
    requires !LeavesLoopAsWritten(text + bytes)
    ensures PostLoopAsWritten(groups, stored, text, [Data(bytes)] + (EndOfStream(n) + rest))
      == PostLoopAsWritten(Refiled(groups, HeaderNames(text + bytes), stored + 1, n + 1), stored, text + bytes, rest)
  {
    AsWrittenPass(groups, stored, text, bytes, EndOfStream(n) + rest);
    AsWrittenSpinsFrom(Register(groups, HeaderNames(text + bytes), stored + 1), stored, text + bytes, n, rest);
  }

  lemma RefiledFromEmpty(g: string, id: nat, n: nat)
    ensures Refiled(map[], [g], id, n + 1) == map[g := Repeat(id, n + 1)]
  {
    FileFirst(g, id);
    RefiledOneGroup(g, id, 1, n);
  }
}
