/** The `autoroles` command of the Welcomer cog (bot/cogs/Welcome.py): the
    role ids are read out of role mentions, and the guild's stored list of
    roles given to new members is shown, thinned out or replaced. */
module WelcomeAutoroles {
  import opened Wrappers
  import opened PyText

  // ---------------------------------------------------------------------
  // Role mentions
  // ---------------------------------------------------------------------

  /** How a role is mentioned in a message: `<@&id>`. */
  function Mention(id: string): string {
    "<@&" + id + ">"
  }

  /** `re.findall(r"<@&(\d+)>", text)`: the ids of the role mentions from
      left to right. A failed attempt moves on by one character. */
  function ExtractRoleIds(text: string): (ids: seq<string>)
    ensures forall k :: 0 <= k < |ids| ==> IsDecimal(ids[k])
    decreases |text|
  {
    if |text| < 3 then []
    else if text[0] == '<' && text[1] == '@' && text[2] == '&' then
      var t := text[3..];
      var n := DigitRun(t);
      if 0 < n < |t| && t[n] == '>' then [t[..n]] + ExtractRoleIds(t[n + 1..])
      else ExtractRoleIds(text[1..])
    else ExtractRoleIds(text[1..])
  }

  /** A mention at the front yields its id, and the search goes on after
      it. */
  lemma MentionExtracted(id: string, rest: string)
    requires IsDecimal(id)
    ensures ExtractRoleIds(Mention(id) + rest) == [id] + ExtractRoleIds(rest)
  {
    var text := Mention(id) + rest;
    var t := text[3..];
    assert t == id + ([ '>' ] + rest);
    DigitRunOfDigits(id, ['>'] + rest);
    assert t[..|id|] == id && t[|id|] == '>' && t[|id| + 1..] == rest;
  }

  /** A character other than '<' is skipped. */
  lemma SkipsOther(c: char, rest: string)
    requires c != '<'
    ensures ExtractRoleIds([c] + rest) == ExtractRoleIds(rest)
  {
    assert ([c] + rest)[1..] == rest;
  }

  /** Text without '<' mentions no role. */
  lemma {:induction false} NoAngleNoIds(text: string)
    requires '<' !in text
    ensures ExtractRoleIds(text) == []
    decreases |text|
  {
    if |text| >= 3 {
      assert text[0] != '<';
      assert '<' !in text[1..];
      NoAngleNoIds(text[1..]);
    }
  }

  /** Mentions separated by spaces, as a moderator types them. */
  function MentionList(ids: seq<string>): string
    decreases |ids|
  {
    if ids == [] then ""
    else if |ids| == 1 then Mention(ids[0])
    else Mention(ids[0]) + " " + MentionList(ids[1..])
  }

  /** The ids of a list of mentions are read back in order. */
  lemma {:induction false} MentionListRoundTrip(ids: seq<string>)
    requires forall k :: 0 <= k < |ids| ==> IsDecimal(ids[k])
    ensures ExtractRoleIds(MentionList(ids)) == ids
    decreases |ids|
  {
    if |ids| == 1 {
      MentionExtracted(ids[0], "");
      assert Mention(ids[0]) + "" == Mention(ids[0]);
    } else if |ids| > 1 {
      var rest := MentionList(ids[1..]);
      MentionListRoundTrip(ids[1..]);
      SkipsOther(' ', rest);
      assert Mention(ids[0]) + " " + rest == Mention(ids[0]) + ([' '] + rest);
      MentionExtracted(ids[0], [' '] + rest);
      assert [ids[0]] + ids[1..] == ids;
    }
  }

  // ---------------------------------------------------------------------
  // The action
  // ---------------------------------------------------------------------

  datatype Action = Display | Remove | Add | Invalid

  /** The action word, compared in lower case. */
  function ClassifyAction(action: string): (a: Action)
    ensures a == Display <==> Lower(action) in {"show", "display", "none"}
    ensures a == Remove <==> Lower(action) in {"remove", "rem", "del", "delete"}
    ensures a == Add <==> Lower(action) == "add"
  {
    var word := Lower(action);
    if word in {"show", "display", "none"} then Display
    else if word in {"remove", "rem", "del", "delete"} then Remove
    else if word == "add" then Add
    else Invalid
  }

  // ---------------------------------------------------------------------
  // Removing ids
  // ---------------------------------------------------------------------

  /** The index of the first occurrence of `x`. */
  function IndexOf(xs: seq<string>, x: string): (i: nat)
    requires x in xs
    ensures i < |xs| && xs[i] == x
    ensures forall j :: 0 <= j < i ==> xs[j] != x
  {
    if xs[0] == x then 0 else 1 + IndexOf(xs[1..], x)
  }

  /** `list.remove(x)` for an `x` in the list: the first occurrence goes,
      and the rest keep their order. */
  function RemoveFirst(xs: seq<string>, x: string): (r: seq<string>)
    requires x in xs
    ensures |r| == |xs| - 1
  {
    var i := IndexOf(xs, x);
    xs[..i] + xs[i + 1..]
  }

  /** Exactly one copy of `x` goes. */
  lemma RemoveFirstMultiset(xs: seq<string>, x: string)
    requires x in xs
    ensures multiset(RemoveFirst(xs, x)) == multiset(xs) - multiset{x}
  {
    var i := IndexOf(xs, x);
    assert xs == xs[..i] + [x] + xs[i + 1..];
  }

  /** The list after each id in turn is removed where present, and how many
      removals happened: the list shrinks by exactly that many. */
  function RemoveEach(list: seq<string>, ids: seq<string>): (r: (seq<string>, nat))
    ensures |r.0| + r.1 == |list|
    ensures r.1 <= |ids|
    decreases |ids|
  {
    if ids == [] then (list, 0)
    else
      var (before, count) := RemoveEach(list, ids[..|ids| - 1]);
      var id := ids[|ids| - 1];
      if id in before then (RemoveFirst(before, id), count + 1) else (before, count)
  }

  /** Removing only takes ids away: what is left was in the list, as many
      times at most. */
  lemma {:induction false} RemoveEachSubset(list: seq<string>, ids: seq<string>)
    ensures multiset(RemoveEach(list, ids).0) <= multiset(list)
    decreases |ids|
  {
    if ids != [] {
      RemoveEachSubset(list, ids[..|ids| - 1]);
      var before := RemoveEach(list, ids[..|ids| - 1]).0;
      var id := ids[|ids| - 1];
      if id in before {
        RemoveFirstMultiset(before, id);
      }
    }
  }

  /** Ids that are not in the list change nothing. */
  lemma {:induction false} RemoveAbsentIds(list: seq<string>, ids: seq<string>)
    requires forall k :: 0 <= k < |ids| ==> ids[k] !in list
    ensures RemoveEach(list, ids) == (list, 0)
    decreases |ids|
  {
    if ids != [] {
      RemoveAbsentIds(list, ids[..|ids| - 1]);
    }
  }

  /** An id kept once in the list is gone after it is named, and counted. */
  lemma RemoveNamedId(list: seq<string>, id: string)
    requires multiset(list)[id] == 1
    ensures id !in RemoveEach(list, [id]).0
    ensures RemoveEach(list, [id]).1 == 1
  {
    assert [id][..0] == [];
    assert id in list;
    RemoveFirstMultiset(list, id);
    var r := RemoveFirst(list, id);
    assert multiset(r)[id] == 0;
  }

  /** Naming an id twice removes two copies when there are two. */
  lemma RemoveRepeatedId(id: string)
    ensures RemoveEach([id, id], [id, id]) == ([], 2)
  {
    var list := [id, id];
    assert [id][..0] == [];
    assert RemoveEach(list, []) == (list, 0);
    assert RemoveFirst(list, id) == [id];
    assert RemoveEach(list, [id]) == ([id], 1);
    assert [id, id][..1] == [id];
    assert RemoveFirst([id], id) == [];
  }

  // ---------------------------------------------------------------------
  // The guild's settings
  // ---------------------------------------------------------------------

  /** The replies of the command. Adding replies nothing. */
  datatype AutoroleReply =
    | NoSettings                          // the guild has no stored document
    | NoAutoroles                         // "This server has no autoroles!"
    | Listing(count: nat, lines: seq<string>)
    | ListingFailed                       // `int(id)` of a stored id that is not a number
    | NeedRoleToRemove                    // "Please supply at least one role to remove!"
    | Removed(count: nat)                 // "Removed {n} role(s)"
    | NeedRole                            // "Please supply at least 1 role"
    | Added
    | InvalidOption

  /** The display line of a stored id: the role's mention, or "UNKNOWN"
      for a role the guild no longer has. */
  function DisplayLine(id: string, guildRoles: map<nat, string>): Option<string> {
    match ParseInt(id, 10)
    case None => None
    case Some(n) => Some(if n >= 0 && n as nat in guildRoles then guildRoles[n as nat] else "UNKNOWN")
  }

  function DisplayLines(ids: seq<string>, guildRoles: map<nat, string>): (r: Option<seq<string>>)
    ensures r.Some? ==> |r.value| == |ids|
    ensures r.Some? <==> forall k :: 0 <= k < |ids| ==> ParseInt(ids[k], 10).Some?
    decreases |ids|
  {
    if ids == [] then Some([])
    else match (DisplayLine(ids[0], guildRoles), DisplayLines(ids[1..], guildRoles))
      case (Some(line), Some(rest)) => Some([line] + rest)
      case _ => None
  }

  /** The join settings of one guild, as the command reads and writes them. */
  class GuildSettings {
    /** Whether `find_one` finds the guild's document. */
    var present: bool
    /** `data.join.auto_roles`. */
    var autoroles: seq<string>

    /** Every stored id is a string of digits. */
    ghost predicate Valid()
      reads this
    {
      forall k :: 0 <= k < |autoroles| ==> IsDecimal(autoroles[k])
    }

    constructor(present: bool, autoroles: seq<string>)
      ensures this.present == present && this.autoroles == autoroles
    {
      this.present := present;
      this.autoroles := autoroles;
    }

    /** The loop of the remove action. */
    method RemoveIds(ids: seq<string>) returns (removedCount: nat)
      modifies this
      ensures autoroles == RemoveEach(old(autoroles), ids).0
      ensures removedCount == RemoveEach(old(autoroles), ids).1
      ensures present == old(present)
      ensures old(Valid()) ==> Valid()
    {
      var list := autoroles;
      removedCount := 0;
      var i := 0;
      while i < |ids|
        invariant 0 <= i <= |ids|
        invariant (list, removedCount) == RemoveEach(old(autoroles), ids[..i])
      {
        assert ids[..i + 1][..i] == ids[..i];
        var id := ids[i];
        if id in list {
          list := RemoveFirst(list, id);
          removedCount := removedCount + 1;
        }
        i := i + 1;
      }
      assert ids[..i] == ids;
      if old(Valid()) {
        RemoveKeepsDigits(old(autoroles), ids);
      }
      autoroles := list;
    }

    /** `autoroles action roles`. */
    method SetAutoroles(action: string, roles: string, guildRoles: map<nat, string>) returns (reply: AutoroleReply)
      modifies this
      ensures present == old(present)
      ensures !present ==> reply == NoSettings && autoroles == old(autoroles)
      ensures present && ClassifyAction(action) == Display ==>
        autoroles == old(autoroles) &&
        reply == (if autoroles == [] then NoAutoroles
                  else match DisplayLines(autoroles, guildRoles)
                    case None => ListingFailed
                    case Some(lines) => Listing(|autoroles|, lines))
      ensures present && ClassifyAction(action) == Remove ==>
        if old(autoroles) == [] then reply == NoAutoroles && autoroles == old(autoroles)
        else if ExtractRoleIds(roles) == [] then reply == NeedRoleToRemove && autoroles == old(autoroles)
        else autoroles == RemoveEach(old(autoroles), ExtractRoleIds(roles)).0 &&
             reply == Removed(RemoveEach(old(autoroles), ExtractRoleIds(roles)).1)
      ensures present && ClassifyAction(action) == Add ==>
        if ExtractRoleIds(roles) == [] then reply == NeedRole && autoroles == old(autoroles)
        else reply == Added && autoroles == ExtractRoleIds(roles)
      ensures present && ClassifyAction(action) == Invalid ==> reply == InvalidOption && autoroles == old(autoroles)
      ensures old(Valid()) ==> Valid()
      ensures present && ClassifyAction(action) == Add && ExtractRoleIds(roles) != [] ==> Valid()
    {
      if !present {
        return NoSettings;
      }
      var kind := ClassifyAction(action);
      match kind
      case Display =>
        if autoroles == [] {
          return NoAutoroles;
        }
        var lines := DisplayLines(autoroles, guildRoles);
        if lines.None? {
          return ListingFailed;
        }
        return Listing(|autoroles|, lines.value);
      case Remove =>
        if autoroles == [] {
          return NoAutoroles;
        }
        var ids := ExtractRoleIds(roles);
        if ids == [] {
          return NeedRoleToRemove;
        }
        var removedCount := RemoveIds(ids);
        return Removed(removedCount);
      case Add =>
        var ids := ExtractRoleIds(roles);
        if ids == [] {
          return NeedRole;
        }
        autoroles := ids;
        return Added;
      case Invalid =>
        return InvalidOption;
    }
  }

  /** Removing ids keeps only ids that were there. */
  lemma RemoveKeepsDigits(list: seq<string>, ids: seq<string>)
    requires forall k :: 0 <= k < |list| ==> IsDecimal(list[k])
    ensures var r := RemoveEach(list, ids).0; forall k :: 0 <= k < |r| ==> IsDecimal(r[k])
  {
    var r := RemoveEach(list, ids).0;
    RemoveEachSubset(list, ids);
    forall k | 0 <= k < |r| ensures IsDecimal(r[k]) {
      assert r[k] in multiset(r);
      assert r[k] in multiset(list);
      var j :| 0 <= j < |list| && list[j] == r[k];
    }
  }
}
