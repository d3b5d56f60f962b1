/** The newsgroup index `groups` (name to ordered article ids) and the text
    formats in which the server reports it. */
module Repository {
  import opened Text
  import opened Framing

  type Groups = map<string, seq<nat>>

  predicate Ascending(ids: seq<nat>) {
    forall i, j :: 0 <= i < j < |ids| ==> ids[i] <= ids[j]
  }

  /** What holds of `groups` while `stored` articles exist: every name is a
      token, every list is non-empty (so `front()` and `back()` are safe), lists
      are in posting order, and every id names a stored article. */
  predicate WellFormed(groups: Groups, stored: nat) {
    forall g :: g in groups ==> IsWord(g) && IdsWellFormed(groups[g], stored)
  }

  /** One group's list: non-empty, in posting order, naming stored articles. */
  predicate IdsWellFormed(ids: seq<nat>, stored: nat) {
    |ids| > 0 && Ascending(ids) && forall i :: 0 <= i < |ids| ==> 1 <= ids[i] <= stored
  }

  /** One pass of the registration loop body (Server.cpp:234-239): the
      group is created when missing, `id` goes to the back of its list, and
      every other group is left alone. */
  function Add(groups: Groups, name: string, id: nat): (r: Groups)
    ensures r.Keys == groups.Keys + {name}
    ensures r[name] == (if name in groups then groups[name] else []) + [id]
    ensures forall g :: g in groups && g != name ==> r[g] == groups[g]
  {
    if name in groups then groups[name := groups[name] + [id]] else groups[name := [id]]
  }

  /** The registration loop (Server.cpp:233-241) over the listed names. It
      only adds: no group disappears and no id moves. */
  function Register(groups: Groups, names: seq<string>, id: nat): (r: Groups)
    ensures Grows(groups, r)
  {
    if names == [] then groups
    else
      var before := Register(groups, names[..|names| - 1], id);
      GrowsTransitive(groups, before, Add(before, names[|names| - 1], id));
      Add(before, names[|names| - 1], id)
  }

  lemma GrowsTransitive(a: Groups, b: Groups, c: Groups)
    requires Grows(a, b) && Grows(b, c)
    ensures Grows(a, c)
  {
  }

  function Count(names: seq<string>, g: string): nat {
    if names == [] then 0
    else Count(names[..|names| - 1], g) + (if names[|names| - 1] == g then 1 else 0)
  }

  function Repeat(id: nat, k: nat): (r: seq<nat>)
    ensures |r| == k && forall i :: 0 <= i < k ==> r[i] == id
  {
    if k == 0 then [] else Repeat(id, k - 1) + [id]
  }

  /** Registration creates exactly the listed groups that were missing and
      removes none. */
  lemma {:induction false} RegisterKeys(groups: Groups, names: seq<string>, id: nat, g: string)
    ensures g in Register(groups, names, id) <==> g in groups || g in names
  {
    if names != [] {
      var init := names[..|names| - 1];
      RegisterKeys(groups, init, id, g);
      assert names == init + [names[|names| - 1]];
    }
  }

  /** Registration appends `id` to a group once for each time the group is
      listed, after the ids it already held. */
  lemma {:induction false} RegisterContents(groups: Groups, names: seq<string>, id: nat, g: string)
    requires g in Register(groups, names, id)
    ensures Register(groups, names, id)[g] == (if g in groups then groups[g] else []) + Repeat(id, Count(names, g))
  {
    var before := if g in groups then groups[g] else [];
    if names == [] {
      assert before + [] == before;
    } else {
      var init := names[..|names| - 1];
      var last := names[|names| - 1];
      var mid := Register(groups, init, id);
      var c := Count(init, g);
      assert Register(groups, names, id) == Add(mid, last, id);
      assert Count(names, g) == c + (if last == g then 1 else 0);
      if g in mid {
        RegisterContents(groups, init, id, g);
        if g == last {
          assert Repeat(id, c + 1) == Repeat(id, c) + [id];
          assert (before + Repeat(id, c)) + [id] == before + (Repeat(id, c) + [id]);
        }
      } else {
        assert g == last;
        RegisterKeys(groups, init, id, g);
        if c > 0 {
          CountPositiveIsListed(init, g);
        }
        assert Repeat(id, 1) == Repeat(id, 0) + [id];
        assert before + Repeat(id, 1) == [id];
      }
    }
  }

  lemma {:induction false} CountPositiveIsListed(names: seq<string>, g: string)
    requires Count(names, g) > 0
    ensures g in names
  {
    if names[|names| - 1] != g {
      CountPositiveIsListed(names[..|names| - 1], g);
    }
  }

  /** Registering the next id under token names keeps the index well formed
      once the article with that id is stored. */
  lemma {:induction false} RegisterKeepsWellFormed(groups: Groups, names: seq<string>, id: nat)
    requires id >= 1 && WellFormed(groups, id - 1)
    requires forall i :: 0 <= i < |names| ==> IsWord(names[i])
    ensures WellFormed(Register(groups, names, id), id)
  {
    if names != [] {
      var init := names[..|names| - 1];
      RegisterKeepsWellFormed(groups, init, id);
      var before := Register(groups, init, id);
      var g := names[|names| - 1];
      if g in before {
        AppendKeepsIds(before[g], id);
      } else {
        assert IdsWellFormed([id], id);
      }
    } else {
      forall g | g in groups
        ensures IdsWellFormed(groups[g], id)
      {
        assert IdsWellFormed(groups[g], id - 1);
      }
    }
  }

  /** Appending the newest id to a list keeps it ordered and in range. */
  lemma AppendKeepsIds(ids: seq<nat>, id: nat)
    requires id >= 1 && IdsWellFormed(ids, id)
    ensures IdsWellFormed(ids + [id], id)
  {
    var longer := ids + [id];
    assert forall i :: 0 <= i < |longer| ==> 1 <= longer[i] <= id;
  }

  /** Every group of `before` is still there, holding the ids it held, in
      the same order, possibly followed by more. */
  predicate Grows(before: Groups, after: Groups) {
    forall g :: g in before ==> g in after && before[g] <= after[g]
  }

  /** The summary line `221 <count> <first> <last> <name>` (Server.cpp:189-198):
      the code, a space, the fields and CRLF. */
  function Summary(ids: seq<nat>, name: string): (r: string)
    requires |ids| > 0
    ensures OccursAt(r, "221 ", 0) && EndsWithCrlf(r)
  {
    "221" + Spaced([NatToString(|ids|), NatToString(ids[0]), NatToString(ids[|ids| - 1]), name]) + "\r\n"
  }

  /** The summary line reads back as five fields: the code, the count, the
      first and last ids, and the group name. */
  lemma SummaryFields(ids: seq<nat>, name: string)
    requires |ids| > 0 && IsWord(name)
    ensures var ts := Tokens(Summary(ids, name));
      |ts| == 5 && ts[0] == "221" && ts[1] == NatToString(|ids|) &&
      ts[2] == NatToString(ids[0]) && ts[3] == NatToString(ids[|ids| - 1]) && ts[4] == name
  {
    var fields := [NatToString(|ids|), NatToString(ids[0]), NatToString(ids[|ids| - 1]), name];
    var crlf := "\r\n";
    var spaced := Spaced(fields);
    TokensOfSpaces(crlf);
    TokensOfSpaced(fields, crlf);
    assert Tokens(spaced + crlf) == fields + [];
    assert spaced == " " + fields[0] + Spaced(fields[1..]);
    var code := "221";
    assert IsWord(code);
    TokensOfWordThen(code, spaced + crlf);
    assert Summary(ids, name) == code + (spaced + crlf);
  }

  /** A client parsing the summary line gets back the count and the first and
      last ids of the group. */
  lemma SummaryReadsBack(ids: seq<nat>, name: string)
    requires |ids| > 0 && IsWord(name)
    ensures var ts := Tokens(Summary(ids, name));
      |ts| == 5 && Atoi(ts[1]) == |ids| && Atoi(ts[2]) == ids[0] && Atoi(ts[3]) == ids[|ids| - 1] && ts[4] == name
  {
    SummaryFields(ids, name);
    AtoiOfNatToString(|ids|);
    AtoiOfNatToString(ids[0]);
    AtoiOfNatToString(ids[|ids| - 1]);
  }

  /** A group first named by one article holds just that article's id, and
      its summary reports one article whose first and last id is that id. */
  lemma NewGroupSummary(groups: Groups, names: seq<string>, id: nat, g: string)
    requires g !in groups && Count(names, g) == 1 && IsWord(g)
    ensures g in Register(groups, names, id) && Register(groups, names, id)[g] == [id]
    ensures var ts := Tokens(Summary([id], g));
      |ts| == 5 && Atoi(ts[1]) == 1 && Atoi(ts[2]) == id && Atoi(ts[3]) == id && ts[4] == g
  {
    CountPositiveIsListed(names, g);
    RegisterKeys(groups, names, id, g);
    RegisterContents(groups, names, id, g);
    assert [] + Repeat(id, 1) == [id];
    SummaryReadsBack([id], g);
  }

  function Numerals(ids: seq<nat>): (ns: seq<string>)
    ensures |ns| == |ids| && forall i :: 0 <= i < |ids| ==> ns[i] == NatToString(ids[i])
  {
    if ids == [] then [] else Numerals(ids[..|ids| - 1]) + [NatToString(ids[|ids| - 1])]
  }

  /** One line per id, in list order (the loop at Server.cpp:204-206): each
      line ends with CRLF, so the text does too unless there are no ids. */
  function IdLines(ids: seq<nat>): (r: string)
    ensures r == [] <==> ids == []
    ensures ids != [] ==> EndsWithCrlf(r)
  {
    if ids == [] then [] else IdLines(ids[..|ids| - 1]) + NatToString(ids[|ids| - 1]) + "\r\n"
  }

  /** The LISTGROUP body (Server.cpp:204-207): the id lines, then the
      terminating `.` line, which ends the body. */
  function Listing(ids: seq<nat>): (r: string)
    ensures EndsWithCrlf(r) && |r| >= 3 && r[|r| - 3] == '.'
  {
    IdLines(ids) + ".\r\n"
  }

  lemma {:induction false} IdLinesTokens(ids: seq<nat>)
    ensures Tokens(IdLines(ids)) == Numerals(ids)
    ensures IdLines(ids) == [] || IsSpace(IdLines(ids)[|IdLines(ids)| - 1])
  {
    if ids != [] {
      var init := ids[..|ids| - 1];
      var w := NatToString(ids[|ids| - 1]);
      IdLinesTokens(init);
      assert IdLines(ids) == IdLines(init) + (w + "\r\n");
      TokensAppend(IdLines(init), w + "\r\n");
      TokensOfWordThen(w, "\r\n");
      TokensOfSpaces("\r\n");
    }
  }

  /** The listing reads back as the ids in order, then `.`. */
  lemma ListingFields(ids: seq<nat>)
    ensures Tokens(Listing(ids)) == Numerals(ids) + ["."]
  {
    var dot, crlf := ".", "\r\n";
    IdLinesTokens(ids);
    assert Listing(ids) == IdLines(ids) + (dot + crlf);
    TokensAppend(IdLines(ids), dot + crlf);
    TokensOfSpaces(crlf);
    TokensOfWordThen(dot, crlf);
  }

  /** A client parsing the listing gets back every id of the group, in order. */
  lemma ListingReadsBack(ids: seq<nat>)
    ensures var ts := Tokens(Listing(ids));
      |ts| == |ids| + 1 && ts[|ids|] == "." && forall i :: 0 <= i < |ids| ==> Atoi(ts[i]) == ids[i]
  {
    ListingFields(ids);
    var ts := Tokens(Listing(ids));
    forall i | 0 <= i < |ids| ensures Atoi(ts[i]) == ids[i] {
      assert ts[i] == NatToString(ids[i]);
      AtoiOfNatToString(ids[i]);
    }
  }
}
