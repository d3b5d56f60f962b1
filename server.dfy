/** The NNTP server object of Server.cpp: the request loop of one client
    connection, the request parser and the five command handlers, over the
    server's in-memory store of articles and newsgroups. */
module Nntp {
  import opened Text
  import opened Framing
  import opened Repository
  import opened Posting

  datatype Verb = Quit | Group | ListGroup | Post | Article

  /** The command table filled in by the constructor (Server.cpp:40-44);
      lookup is case-sensitive. */
  const RequestTypes: map<string, Verb> :=
    map["QUIT" := Quit, "GROUP" := Group, "LISTGROUP" := ListGroup, "POST" := Post, "ARTICLE" := Article]

  const Greeting: string := "200\tNNTP Service Ready, posting permitted\r\n"
  const ClosingConnection: string := "205\tClosing connection\r\n"
  const NoSuchGroup: string := "411\tNo such newsgroup\r\n"
  const NoGroupSelected: string := "412\tNo newsgroup selected\r\n"
  const UnknownCommand: string := "500\tUnknown command\r\n"
  const InputArticle: string := "340\tInput article; end with <CR-LF>.<CR-LF>\r\n"
  const PostingFailed: string := "441\tPosting failed\r\n"
  const ArticleReceived: string := "240\tArticle received OK\r\n"
  const NoSuchArticle: string := "430\tNo article with that message-id\r\n"

  /** The handler the table names for a command name, if any. */
  function Command(name: string): Option<Verb> {
    if name in RequestTypes then Some(RequestTypes[name]) else None
  }

  /** Each handler is reached by exactly one command name, spelled in
      capitals. */
  lemma TableEntry(name: string)
    ensures Command(name) == Some(Verb.Quit) <==> name == "QUIT"
    ensures Command(name) == Some(Verb.Group) <==> name == "GROUP"
    ensures Command(name) == Some(Verb.ListGroup) <==> name == "LISTGROUP"
    ensures Command(name) == Some(Verb.Post) <==> name == "POST"
    ensures Command(name) == Some(Verb.Article) <==> name == "ARTICLE"
  {
  }

  /** A request line `VERB ARG ...` with single spaces parses to the verb
      and its arguments, so the server takes `VERB` as the command name and
      `ARG` as the argument. */
  lemma RequestParses(verb: string, args: seq<string>)
    requires IsWord(verb) && forall i :: 0 <= i < |args| ==> IsWord(args[i])
    ensures Tokens(verb + Spaced(args)) == [verb] + args
  {
    TokensOfSpacedWords(args);
    SpacedLeadsWithSpace(args, []);
    assert Spaced(args) + [] == Spaced(args);
    TokensOfWordThen(verb, Spaced(args));
  }

  /** The ARTICLE answer (Server.cpp:267-269): `202`, a tab, the id and
      CRLF, then the stored text as it was received, which ends the answer. */
  function ArticleReply(id: nat, text: string): (reply: string)
    ensures |reply| == 6 + |NatToString(id)| + |text| && reply[|reply| - |text|..] == text
  {
    "202\t" + NatToString(id) + Crlf + text
  }

  /** A client reading the ARTICLE answer up to its first CRLF gets the id
      back, and everything after that CRLF is the article, byte for byte. */
  lemma ArticleReplyReadsBack(id: nat, text: string)
    ensures var reply := ArticleReply(id, text);
      var e := 4 + |NatToString(id)|;
      FindFrom(reply, Crlf, 0) == Some(e) && e + 2 <= |reply| && reply[e + 2..] == text &&
      var ts := Tokens(reply[..e]);
      |ts| == 2 && ts[0] == "202" && Atoi(ts[1]) == id
  {
    var code, digits := "202", NatToString(id);
    assert IsWord(code) && NoCr(code);
    assert "202\t" == code + "\t";
    StatusLine(code, digits, text);
    AtoiOfNatToString(id);
  }

  /** A status line `<code>\t<digits>` followed by CRLF and a body: the CRLF
      is found right after the line, the body follows it, and the line
      tokenises to the code and the digits. */
  lemma StatusLine(code: string, digits: string, text: string)
    requires IsWord(code) && NoCr(code) && IsWord(digits)
    ensures var status := code + "\t" + digits;
      var reply := status + Crlf + text;
      FindFrom(reply, Crlf, 0) == Some(|status|) && reply[|status| + 2..] == text &&
      reply[..|status|] == status && Tokens(status) == [code, digits]
  {
    var status := code + "\t" + digits;
    assert NoCr(status) by {
      NoCrAppend(code, "\t");
      NoCrAppend(code + "\t", digits);
    }
    LineThenBody(status, text);
    StatusTokens(code, digits);
  }

  lemma LineThenBody(line: string, text: string)
    requires NoCr(line)
    ensures var reply := line + Crlf + text;
      FindFrom(reply, Crlf, 0) == Some(|line|) && reply[..|line|] == line && reply[|line| + 2..] == text
  {
    assert line + Crlf + text == [] + line + Crlf + text;
    CrlfAfter([], line, text);
  }

  lemma StatusTokens(code: string, digits: string)
    requires IsWord(code) && IsWord(digits)
    ensures Tokens(code + "\t" + digits) == [code, digits]
  {
    assert code + "\t" + digits == code + ("\t" + digits);
    TokensOfWordThen(code, "\t" + digits);
    TabThenWord(digits);
  }

  lemma TabThenWord(w: string)
    requires IsWord(w)
    ensures Tokens("\t" + w) == [w]
  {
    TokensAppend("\t", w);
    TokensOfSpaces("\t");
    TokensOfWord(w);
  }

  /** The server: its store, the session state of the current client, the
      bytes `recv` will deliver and the messages sent so far. */
  class Server {
    var groups: Groups
    var articles: seq<string>
    var selectedGroup: string
    var currentArticle: nat
    var clientDone: bool
    var requestTypeName: string
    var requestArgument: string
    /** Every message passed to `sendMessage`, in order. */
    var output: seq<string>
    /** What the remaining `recv` calls return, in order. */
    var input: seq<Chunk>

    /** The store is consistent (every listed id names a stored article and
        every list is non-empty), the selected group exists when one is
        selected, and the current-article index is the only value the
        source ever gives it. */
    ghost predicate Valid()
      reads this
    {
      WellFormed(groups, |articles|) &&
      (selectedGroup == "" || selectedGroup in groups) &&
      currentArticle == 1
    }

    /** A server with an empty store and no client (Server.cpp:18-45, without
        the listening socket). */
    constructor ()
      ensures Valid()
      ensures groups == map[] && articles == [] && selectedGroup == "" && !clientDone
      ensures requestTypeName == "" && requestArgument == "" && output == [] && input == []
    {
      groups := map[];
      articles := [];
      selectedGroup := "";
      currentArticle := 1;
      clientDone := false;
      requestTypeName := "";
      requestArgument := "";
      output := [];
      input := [];
    }

    /** `sendMessage` (Server.cpp:104-117) when every `send` succeeds. */
    method Send(msg: string)
      modifies this`output
      ensures output == old(output) + [msg]
    {
      output := output + [msg];
    }

    /** One `recv` call: the next chunk, or a failure once the client has
        nothing more to deliver. */
    method Recv() returns (c: Chunk)
      modifies this`input
      ensures old(input) == [] ==> c == Failed && input == []
      ensures old(input) != [] ==> c == old(input)[0] && input == old(input)[1..]
    {
      if input == [] {
        c := Failed;
      } else {
        c := input[0];
        input := input[1..];
      }
    }

    /** Splitting a request line into command and argument (Server.cpp:148-155):
        the first token becomes the command name, and a line without tokens
        leaves the previous name in place; the argument is the second token,
        or empty. Anything after the second token is ignored. */
    method ProcessSingleLineRequest(request: string)
      modifies this`requestTypeName, this`requestArgument
      ensures var ts := Tokens(request);
        requestTypeName == (if |ts| > 0 then ts[0] else old(requestTypeName)) &&
        requestArgument == (if |ts| > 1 then ts[1] else "")
      ensures requestArgument == "" || IsWord(requestArgument)
    {
      var ts := Tokens(request);
      if |ts| > 0 {
        requestTypeName := ts[0];
      }
      requestArgument := if |ts| > 1 then ts[1] else "";
    }

    /** The receive loop of `readSingleLineRequest` (Server.cpp:128-141):
        chunks are received until everything received so far ends with CRLF;
        a failed read or end of stream first gives `None`. `used` are the
        chunks consumed. */
    method ReceiveRequest() returns (received: Option<string>, ghost used: seq<Chunk>)
      modifies this`input
      ensures Consumed(old(input), used, input) && used != []
      ensures AllDelivered(used[..|used| - 1]) && NoEarlierLine(used)
      ensures received.None? <==> !Delivered(used[|used| - 1])
      ensures received.Some? ==> received.value == Concat(used) && EndsWithCrlf(received.value)
    {
      var request := "";
      used := [];
      while !EndsWithCrlf(request)
        invariant old(input) == used + input
        invariant request == Concat(used)
        invariant AllDelivered(used) && NoEarlierLine(used)
        decreases |input|
      {
        ghost var rest := input;
        var c := Recv();
        ReadStep(old(input), used, rest, c, input);
        ConcatSnoc(used, c);
        NoEarlierLineSnoc(used, c);
        assert (used + [c])[..|used|] == used;
        used := used + [c];
        if !Delivered(c) {
          return None, used;
        }
        request := request + c.bytes;
      }
      AllDeliveredSplit(used);
      received := Some(request);
    }

    /** Reading one request (Server.cpp:124-146): the text received, without
        its final CRLF, is parsed; a failed read or end of stream ends the
        client's session instead. `used` are the chunks consumed. */
    method ReadSingleLineRequest() returns (ok: bool, ghost used: seq<Chunk>)
      modifies this`input, this`clientDone, this`requestTypeName, this`requestArgument
      ensures Consumed(old(input), used, input) && used != []
      ensures ok ==> |input| < |old(input)|
      ensures AllDelivered(used[..|used| - 1]) && NoEarlierLine(used)
      ensures ok <==> Delivered(used[|used| - 1])
      ensures ok ==> (EndsWithCrlf(Concat(used)) && clientDone == old(clientDone) &&
        var ts := Tokens(StripCrlf(Concat(used)));
        requestTypeName == (if |ts| > 0 then ts[0] else old(requestTypeName)) &&
        requestArgument == (if |ts| > 1 then ts[1] else ""))
      ensures !ok ==> clientDone && requestTypeName == old(requestTypeName) && requestArgument == old(requestArgument)
    {
      var received;
      received, used := ReceiveRequest();
      if received.None? {
        clientDone := true;
        return false, used;
      }
      ProcessSingleLineRequest(StripCrlf(received.value));
      ok := true;
    }

    /** QUIT (Server.cpp:158-161). */
    method Quit()
      modifies this`output, this`clientDone
      ensures output == old(output) + [ClosingConnection] && clientDone
    {
      Send(ClosingConnection);
      clientDone := true;
    }

    /** The `221` summary of the selected group (Server.cpp:189-198). The name
        printed is the request argument, not the selected group's name. A
        client reading it back gets the code, the number of articles, the
        first and last ids and the name. */
    function CurrentGroupRepresentation(): (r: string)
      reads this
      requires selectedGroup in groups && |groups[selectedGroup]| > 0 && IsWord(requestArgument)
      ensures var ids, ts := groups[selectedGroup], Tokens(r);
        |ts| == 5 && ts[0] == "221" && Atoi(ts[1]) == |ids| &&
        Atoi(ts[2]) == ids[0] && Atoi(ts[3]) == ids[|ids| - 1] && ts[4] == requestArgument
    {
      SummaryFields(groups[selectedGroup], requestArgument);
      SummaryReadsBack(groups[selectedGroup], requestArgument);
      Summary(groups[selectedGroup], requestArgument)
    }

    /** GROUP (Server.cpp:163-172): select an existing group and answer
        with its summary, or answer 411 and deselect. */
    method Group()
      requires Valid()
      modifies this`output, this`selectedGroup, this`currentArticle
      ensures Valid()
      ensures requestArgument in groups ==>
        selectedGroup == requestArgument && currentArticle == 1 &&
        output == old(output) + [Summary(groups[requestArgument], requestArgument)]
      ensures requestArgument !in groups ==>
        selectedGroup == "" && currentArticle == old(currentArticle) && output == old(output) + [NoSuchGroup]
    {
      if requestArgument !in groups {
        Send(NoSuchGroup);
        selectedGroup := "";
        return;
      }
      selectedGroup := requestArgument;
      currentArticle := 1;
      Send(CurrentGroupRepresentation());
    }

    /** The LISTGROUP body: every id of the selected group on its own line,
        then `.` (Server.cpp:200-209). A client reads back every id, in order. */
    method CurrentGroupArticlesId() returns (r: string)
      requires selectedGroup in groups
      ensures r == Listing(groups[selectedGroup])
      ensures Tokens(r) == Numerals(groups[selectedGroup]) + ["."]
    {
      var ids := groups[selectedGroup];
      r := "";
      var i := 0;
      while i < |ids|
        invariant 0 <= i <= |ids|
        invariant r == IdLines(ids[..i])
      {
        assert ids[..i + 1][..i] == ids[..i];
        r := r + NatToString(ids[i]) + Crlf;
        i := i + 1;
      }
      assert ids[..|ids|] == ids;
      r := r + ".\r\n";
      ListingFields(ids);
    }

    /** LISTGROUP (Server.cpp:174-187). A non-empty argument is selected
        first. The existence test then looks at the argument, even when it
        is empty, so without an argument the answer is 412 when no group is
        selected and 411 (deselecting) otherwise: it never lists. */
    method ListGroup()
      requires Valid()
      modifies this`output, this`selectedGroup
      ensures Valid()
      ensures requestArgument == "" && old(selectedGroup) == "" ==>
        selectedGroup == "" && output == old(output) + [NoGroupSelected]
      ensures requestArgument == "" && old(selectedGroup) != "" ==>
        selectedGroup == "" && output == old(output) + [NoSuchGroup]
      ensures requestArgument != "" && requestArgument !in groups ==>
        selectedGroup == "" && output == old(output) + [NoSuchGroup]
      ensures requestArgument in groups ==>
        selectedGroup == requestArgument &&
        output == old(output) + [Summary(groups[requestArgument], requestArgument) + Listing(groups[requestArgument])]
    {
      if requestArgument != "" {
        selectedGroup := requestArgument;
      } else if selectedGroup == "" {
        Send(NoGroupSelected);
        return;
      }
      if requestArgument !in groups {
        Send(NoSuchGroup);
        selectedGroup := "";
        return;
      }
      var listing := CurrentGroupArticlesId();
      Send(CurrentGroupRepresentation() + listing);
    }

    /** Answer 500 (Server.cpp:211-214). */
    method UnsupportedOperation()
      modifies this`output
      ensures output == old(output) + [UnknownCommand]
    {
      Send(UnknownCommand);
    }

    /** The registration loop (Server.cpp:233-241): append `id` to each named
        group, creating the groups that do not exist yet. */
    method RegisterGroups(names: seq<string>, id: nat)
      modifies this`groups
      ensures groups == Register(old(groups), names, id)
    {
      var i := 0;
      while i < |names|
        invariant 0 <= i <= |names|
        invariant groups == Register(old(groups), names[..i], id)
      {
        assert names[..i + 1][..i] == names[..i];
        var g := names[i];
        ghost var before := groups;
        assert Register(old(groups), names[..i + 1], id) == Add(before, g, id);
        if g in groups {
          groups := groups[g := groups[g] + [id]];
        } else {
          groups := groups[g := [id]];
        }
        assert groups == Add(before, g, id);
        i := i + 1;
      }
      assert names[..|names|] == names;
    }

    /** The receive loop of POST (Server.cpp:219-246) with its exit test
        corrected: chunks are received until the text holds the terminator.
        A failed read or, corrected too, end of stream gives `None`. `used`
        are the chunks consumed. */
    method ReceiveArticle() returns (received: Option<string>, ghost used: seq<Chunk>)
      modifies this`input
      ensures Consumed(old(input), used, input) && used != []
      ensures AllDelivered(used[..|used| - 1]) && NoEarlierBody(used)
      ensures received.None? <==> !Delivered(used[|used| - 1])
      ensures received.Some? ==> received.value == Concat(used) && BodyComplete(received.value)
    {
      var text := "";
      used := [];
      while true
        invariant old(input) == used + input
        invariant text == Concat(used)
        invariant AllDelivered(used)
        invariant NoEarlierBody(used) && !BodyComplete(text)
        decreases |input|
      {
        ghost var rest := input;
        var c := Recv();
        ReadStep(old(input), used, rest, c, input);
        ConcatSnoc(used, c);
        NoEarlierBodySnoc(used, c);
        assert (used + [c])[..|used|] == used;
        used := used + [c];
        if !Delivered(c) {
          return None, used;
        }
        text := text + c.bytes;
        if BodyComplete(text) {
          AllDeliveredSplit(used);
          return Some(text), used;
        }
      }
    }

    /** POST (Server.cpp:216-249) with its receive loop corrected: a failed
        read or end of stream answers 441 and changes nothing; otherwise the
        received text is stored as the next article and filed, once, under
        the groups of its `Newsgroups:` header. `used` are the chunks
        consumed. */
    method Post() returns (ghost used: seq<Chunk>)
      requires Valid()
      modifies this`input, this`output, this`groups, this`articles
      ensures Valid()
      ensures Consumed(old(input), used, input) && used != []
      ensures AllDelivered(used[..|used| - 1]) && NoEarlierBody(used)
      ensures !Delivered(used[|used| - 1]) ==>
        output == old(output) + [InputArticle, PostingFailed] &&
        groups == old(groups) && articles == old(articles)
      ensures Delivered(used[|used| - 1]) ==>
        BodyComplete(Concat(used)) &&
        articles == old(articles) + [Concat(used)] &&
        groups == Register(old(groups), HeaderNames(Concat(used)), |articles|) &&
        output == old(output) + [InputArticle, ArticleReceived]
    {
      Send(InputArticle);
      var received;
      received, used := ReceiveArticle();
      if received.None? {
        Send(PostingFailed);
        assert old(output) + [InputArticle] + [PostingFailed] == old(output) + [InputArticle, PostingFailed];
        return;
      }
      var text := received.value;
      var id := |articles| + 1;
      var names := HeaderNames(text);
      RegisterKeepsWellFormed(groups, names, id);
      RegisterKeys(groups, names, id, selectedGroup);
      RegisterGroups(names, id);
      articles := articles + [text];
      assert WellFormed(groups, |articles|);
      assert selectedGroup == "" || selectedGroup in groups;
      Send(ArticleReceived);
      assert old(output) + [InputArticle] + [ArticleReceived] == old(output) + [InputArticle, ArticleReceived];
    }

    /** ARTICLE (Server.cpp:251-271). Without an argument the current article
        of the selected group is sent (412 when none is selected); with one,
        the argument is read with `atoi` and must name a stored article
        (430 otherwise; a negative value wraps to a huge unsigned id). */
    method Article()
      requires Valid()
      modifies this`output
      ensures requestArgument == "" && selectedGroup == "" ==> output == old(output) + [NoGroupSelected]
      ensures requestArgument == "" && selectedGroup != "" ==>
        var id := groups[selectedGroup][currentArticle - 1];
        1 <= id <= |articles| && output == old(output) + [ArticleReply(id, articles[id - 1])]
      ensures requestArgument != "" ==>
        var n := Atoi(requestArgument);
        if 1 <= n <= |articles| then output == old(output) + [ArticleReply(n, articles[n - 1])]
        else output == old(output) + [NoSuchArticle]
    {
      var id: nat := 0;
      if requestArgument == "" {
        if selectedGroup != "" {
          id := groups[selectedGroup][currentArticle - 1];
        } else {
          Send(NoGroupSelected);
          return;
        }
      } else {
        var n := Atoi(requestArgument);
        if n <= 0 || n > |articles| {
          Send(NoSuchArticle);
          return;
        }
        id := n;
      }
      Send(ArticleReply(id, articles[id - 1]));
    }

    /** The command switch of the request loop (Server.cpp:67-90): an unknown
        command name gets 500, a known one runs its handler, with the reply
        and new state that handler promises. `used` are the chunks POST
        consumed (none for the other commands). */
    method Dispatch() returns (ghost used: seq<Chunk>)
      requires Valid()
      modifies this`input, this`output, this`groups, this`articles, this`selectedGroup,
        this`currentArticle, this`clientDone
      ensures Valid()
      ensures Command(requestTypeName) == None ==>
        output == old(output) + [UnknownCommand] && selectedGroup == old(selectedGroup) &&
        currentArticle == old(currentArticle) && clientDone == old(clientDone)
      ensures clientDone <==> old(clientDone) || Command(requestTypeName) == Some(Verb.Quit)
      ensures Command(requestTypeName) != Some(Verb.Post) ==>
        used == [] && input == old(input) && articles == old(articles) && groups == old(groups)
      ensures Command(requestTypeName) == Some(Verb.Quit) ==>
        output == old(output) + [ClosingConnection] && selectedGroup == old(selectedGroup)
      ensures Command(requestTypeName) == Some(Verb.Group) ==>
        if requestArgument in groups then
          selectedGroup == requestArgument && currentArticle == 1 &&
          output == old(output) + [Summary(groups[requestArgument], requestArgument)]
        else
          selectedGroup == "" && output == old(output) + [NoSuchGroup]
      ensures Command(requestTypeName) == Some(Verb.ListGroup) ==>
        if requestArgument in groups then
          selectedGroup == requestArgument &&
          output == old(output) + [Summary(groups[requestArgument], requestArgument) + Listing(groups[requestArgument])]
        else
          selectedGroup == "" &&
          output == old(output) + [if requestArgument == "" && old(selectedGroup) == "" then NoGroupSelected else NoSuchGroup]
      ensures Command(requestTypeName) == Some(Verb.Article) ==>
        selectedGroup == old(selectedGroup) &&
        (if requestArgument == "" then
          if selectedGroup == "" then output == old(output) + [NoGroupSelected]
          else
            var id := groups[selectedGroup][currentArticle - 1];
            1 <= id <= |articles| && output == old(output) + [ArticleReply(id, articles[id - 1])]
        else
          var n := Atoi(requestArgument);
          if 1 <= n <= |articles| then output == old(output) + [ArticleReply(n, articles[n - 1])]
          else output == old(output) + [NoSuchArticle])
      ensures Command(requestTypeName) == Some(Verb.Post) ==>
        selectedGroup == old(selectedGroup) &&
        Consumed(old(input), used, input) && used != [] &&
        AllDelivered(used[..|used| - 1]) && NoEarlierBody(used) &&
        (if Delivered(used[|used| - 1]) then
          BodyComplete(Concat(used)) &&
          articles == old(articles) + [Concat(used)] &&
          groups == Register(old(groups), HeaderNames(Concat(used)), |articles|) &&
          output == old(output) + [InputArticle, ArticleReceived]
        else
          output == old(output) + [InputArticle, PostingFailed] &&
          groups == old(groups) && articles == old(articles))
      ensures old(output) < output
      ensures |input| <= |old(input)|
      ensures old(articles) <= articles
      ensures Grows(old(groups), groups)
    {
      used := [];
      match Command(requestTypeName) {
        case None => UnsupportedOperation();
        case Some(Quit) => Quit();
        case Some(Post) => used := Post();
        case Some(Group) => Group();
        case Some(ListGroup) => ListGroup();
        case Some(Article) => Article();
      }
    }

    /** One client connection (Server.cpp:60-91): greet, then read and serve
        requests until QUIT or until the client stops sending. The store and
        the selected group carry over from earlier connections. */
    method Serve(chunks: seq<Chunk>)
      requires Valid()
      modifies this
      ensures Valid() && clientDone
      ensures old(output) + [Greeting] <= output
      ensures old(articles) <= articles
      ensures Grows(old(groups), groups)
    {
      input := chunks;
      clientDone := false;
      Send(Greeting);
      while !clientDone
        invariant Valid()
        invariant old(output) + [Greeting] <= output
        invariant old(articles) <= articles
        invariant Grows(old(groups), groups)
        decreases |input|
      {
        var ok;
        ghost var used;
        ok, used := ReadSingleLineRequest();
        if !ok {
          break;
        }
        ghost var before := groups;
        used := Dispatch();
        GrowsTransitive(old(groups), before, groups);
      }
    }
  }
}
