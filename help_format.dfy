/** The help command (bot/cogs/Help.py): the one-line signature `syntax`
    prints for a command, the page footer of the help menu, the field list
    of a page, and the way `help module command` picks the command to
    describe. */
module HelpFormat {
  import opened Wrappers
  import opened PyText

  /** A parameter of a command's callback; `optional` stands for its
      annotation text mentioning `NoneType`. */
  datatype Param = Param(name: string, optional: bool)

  /** What the help command reads of a command. `qualifiedName` is what
      `str(command)` prints; `subcommands` is present exactly for a group. */
  datatype Command = Command(
    name: string,
    qualifiedName: string,
    aliases: seq<string>,
    params: seq<Param>,
    description: string,
    subcommands: Option<seq<Command>>)

  // ---------------------------------------------------------------------
  // syntax
  // ---------------------------------------------------------------------

  predicate Hidden(p: Param) {
    p.name == "self" || p.name == "ctx"
  }

  /** `[k]` for an optional parameter, `<k>` otherwise. */
  function RenderParam(p: Param): string {
    if p.optional then "[" + p.name + "]" else "<" + p.name + ">"
  }

  /** The rendered parameters, in declaration order, without "self" and
      "ctx". */
  function ListedParams(ps: seq<Param>): (r: seq<string>)
    ensures |r| <= |ps|
    decreases |ps|
  {
    if ps == [] then []
    else
      var init := ListedParams(ps[..|ps| - 1]);
      var last := ps[|ps| - 1];
      if Hidden(last) then init else init + [RenderParam(last)]
  }

  /** The signature: the name and the aliases joined by "|", then a space
      and the parameters when there are any, all between backticks. */
  function SyntaxText(c: Command): (s: string)
    ensures |s| >= 2 && s[0] == '`' && s[|s| - 1] == '`'
  {
    var names := Join([c.qualifiedName] + c.aliases, "|");
    var params := Join(ListedParams(c.params), " ");
    "`" + names + (if params != "" then " " + params else "") + "`"
  }

  /** `syntax(command)`. */
  method Syntax(c: Command) returns (text: string)
    ensures text == SyntaxText(c)
  {
    var listed: seq<string> := [];
    var i := 0;
    while i < |c.params|
      invariant 0 <= i <= |c.params|
      invariant listed == ListedParams(c.params[..i])
    {
      assert c.params[..i + 1][..i] == c.params[..i];
      var p := c.params[i];
      if !Hidden(p) {
        listed := listed + [RenderParam(p)];
      }
      i := i + 1;
    }
    assert c.params[..i] == c.params;
    var params := Join(listed, " ");
    var names := Join([c.qualifiedName] + c.aliases, "|");
    text := "`" + names + (if params != "" then " " + params else "") + "`";
  }

  /** With no hidden parameter every parameter is listed, in order, each
      in its own brackets. */
  lemma {:induction false} AllParamsListed(ps: seq<Param>)
    requires forall k :: 0 <= k < |ps| ==> !Hidden(ps[k])
    ensures |ListedParams(ps)| == |ps|
    ensures forall k :: 0 <= k < |ps| ==> ListedParams(ps)[k] == RenderParam(ps[k])
    decreases |ps|
  {
    if ps != [] {
      var init := ps[..|ps| - 1];
      assert forall k :: 0 <= k < |init| ==> init[k] == ps[k];
      AllParamsListed(init);
      assert ListedParams(ps) == ListedParams(init) + [RenderParam(ps[|ps| - 1])];
    }
  }

  /** Hidden parameters leave no trace: listing only "self" and "ctx"
      gives nothing. */
  lemma {:induction false} HiddenParamsDropped(ps: seq<Param>)
    requires forall k :: 0 <= k < |ps| ==> Hidden(ps[k])
    ensures ListedParams(ps) == []
    decreases |ps|
  {
    if ps != [] {
      HiddenParamsDropped(ps[..|ps| - 1]);
    }
  }

  /** Every listed parameter is a visible one in brackets. */
  lemma {:induction false} ListedAreVisible(ps: seq<Param>)
    ensures forall k :: 0 <= k < |ListedParams(ps)| ==>
      exists j :: 0 <= j < |ps| && !Hidden(ps[j]) && ListedParams(ps)[k] == RenderParam(ps[j])
    decreases |ps|
  {
    if ps != [] {
      var init := ps[..|ps| - 1];
      ListedAreVisible(init);
      forall k | 0 <= k < |ListedParams(ps)|
        ensures exists j :: 0 <= j < |ps| && !Hidden(ps[j]) && ListedParams(ps)[k] == RenderParam(ps[j])
      {
        if k < |ListedParams(init)| {
          assert ListedParams(ps)[k] == ListedParams(init)[k];
          var j :| 0 <= j < |init| && !Hidden(init[j]) && ListedParams(init)[k] == RenderParam(init[j]);
          assert ps[j] == init[j];
        } else {
          assert !Hidden(ps[|ps| - 1]);
          assert ListedParams(ps)[k] == RenderParam(ps[|ps| - 1]);
        }
      }
    } else {
      assert ListedParams(ps) == [];
    }
  }

  /** Listing distributes over concatenation: the parameters of `a` come
      out first, in their order, then those of `b`. */
  lemma {:induction false} ListedAppend(a: seq<Param>, b: seq<Param>)
    ensures ListedParams(a + b) == ListedParams(a) + ListedParams(b)
    decreases |b|
  {
    if b == [] {
      assert a + b == a;
    } else {
      var init := b[..|b| - 1];
      assert (a + b)[..|a + b| - 1] == a + init;
      assert (a + b)[|a + b| - 1] == b[|b| - 1];
      ListedAppend(a, init);
    }
  }

  /** The shape the source meets: "self" and "ctx" first, then the
      command's own visible parameters, which are all listed in declaration
      order. */
  lemma SelfCtxThenParams(selfParam: Param, ctxParam: Param, ps: seq<Param>)
    requires selfParam.name == "self" && ctxParam.name == "ctx"
    requires forall k :: 0 <= k < |ps| ==> !Hidden(ps[k])
    ensures |ListedParams([selfParam, ctxParam] + ps)| == |ps|
    ensures forall k :: 0 <= k < |ps| ==> ListedParams([selfParam, ctxParam] + ps)[k] == RenderParam(ps[k])
  {
    ListedAppend([selfParam, ctxParam], ps);
    HiddenParamsDropped([selfParam, ctxParam]);
    AllParamsListed(ps);
  }

  /** A command without listed parameters prints no trailing space. */
  lemma SyntaxWithoutParams(c: Command)
    requires ListedParams(c.params) == []
    ensures SyntaxText(c) == "`" + Join([c.qualifiedName] + c.aliases, "|") + "`"
  {
  }

  // ---------------------------------------------------------------------
  // The help menu's pages
  // ---------------------------------------------------------------------

  const PerPage := 3

  /** `f"{n:,}"` for n >= 0: the decimal digits with a comma before every
      group of three counted from the right. */
  function Grouped(n: nat): string {
    InsertCommas(NatDigits(n, 10))
  }

  function InsertCommas(d: string): (r: string)
    ensures |r| == |d| + (if |d| == 0 then 0 else (|d| - 1) / 3)
    decreases |d|
  {
    if |d| <= 3 then d else InsertCommas(d[..|d| - 3]) + "," + d[|d| - 3..]
  }

  function RemoveCommas(s: string): string
    decreases |s|
  {
    if s == [] then []
    else RemoveCommas(s[..|s| - 1]) + (if s[|s| - 1] == ',' then [] else [s[|s| - 1]])
  }

  lemma {:induction false} RemoveCommasAppend(a: string, b: string)
    ensures RemoveCommas(a + b) == RemoveCommas(a) + RemoveCommas(b)
    decreases |b|
  {
    if b != [] {
      assert (a + b)[..|a + b| - 1] == a + b[..|b| - 1];
      RemoveCommasAppend(a, b[..|b| - 1]);
    } else {
      assert a + b == a;
    }
  }

  lemma {:induction false} RemoveCommasAbsent(d: string)
    requires ',' !in d
    ensures RemoveCommas(d) == d
    decreases |d|
  {
    if d != [] {
      assert ',' !in d[..|d| - 1];
      RemoveCommasAbsent(d[..|d| - 1]);
    }
  }

  lemma RemoveCommasSeparator(a: string, b: string)
    ensures RemoveCommas(a + [','] + b) == RemoveCommas(a) + RemoveCommas(b)
  {
    RemoveCommasAppend(a + [','], b);
    assert (a + [','])[..|a|] == a;
  }

  /** Taking the commas out again gives the plain digits. */
  lemma {:induction false} InsertCommasRoundTrip(d: string)
    requires ',' !in d
    ensures RemoveCommas(InsertCommas(d)) == d
    decreases |d|
  {
    if |d| <= 3 {
      RemoveCommasAbsent(d);
    } else {
      var head, tail := d[..|d| - 3], d[|d| - 3..];
      assert ',' !in head && ',' !in tail;
      var a := InsertCommas(head);
      assert InsertCommas(d) == a + [','] + tail;
      InsertCommasRoundTrip(head);
      RemoveCommasAbsent(tail);
      RemoveCommasSeparator(a, tail);
      assert head + tail == d;
    }
  }

  lemma GroupedDigits(n: nat)
    ensures RemoveCommas(Grouped(n)) == IntToString(n)
  {
    var d := NatDigits(n, 10);
    assert ',' !in d by {
      forall i | 0 <= i < |d| ensures d[i] != ',' { assert IsDigitIn(d[i], 10); }
    }
    InsertCommasRoundTrip(d);
  }

  /** The first and last entry numbers of a page's footer. */
  function FooterRange(currentPage: nat, lenData: nat): (r: (nat, nat))
    ensures r.0 == currentPage * PerPage + 1
    ensures r.1 <= lenData
    ensures r.1 == lenData || r.1 == r.0 + PerPage - 1
    ensures r.1 <= r.0 + PerPage - 1
  {
    var offset := currentPage * PerPage + 1;
    (offset, if lenData < offset + PerPage - 1 then lenData else offset + PerPage - 1)
  }

  /** The footer text: "first - last of total commands.". */
  function Footer(currentPage: nat, lenData: nat): (s: string)
    ensures |s| > 10 && s[|s| - 10..] == " commands."
  {
    var (first, last) := FooterRange(currentPage, lenData);
    Grouped(first) + " - " + Grouped(last) + " of " + Grouped(lenData) + " commands."
  }

  /** The entries a page shows, `entries[page*3 : page*3 + 3]`. */
  function PageEntries<T>(entries: seq<T>, page: nat): seq<T> {
    var start := page * PerPage;
    if start >= |entries| then []
    else if start + PerPage <= |entries| then entries[start..start + PerPage]
    else entries[start..]
  }

  /** On a page that exists, the footer numbers the page's entries from
      one: the first shown is entry `first`, and the page holds exactly
      `last - first + 1` of them. */
  lemma FooterCountsPage<T>(entries: seq<T>, page: nat)
    requires page * PerPage < |entries|
    ensures var (first, last) := FooterRange(page, |entries|);
            1 <= first <= last && |PageEntries(entries, page)| == last - first + 1 &&
            PageEntries(entries, page)[0] == entries[first - 1] &&
            PageEntries(entries, page)[|PageEntries(entries, page)| - 1] == entries[last - 1]
  {
  }

  /** Consecutive pages continue each other's numbering. */
  lemma FooterPagesContinue(page: nat, lenData: nat)
    requires (page + 1) * PerPage < lenData
    ensures FooterRange(page + 1, lenData).0 == FooterRange(page, lenData).1 + 1
  {
  }

  /** `format_page`: each entry as its description, or "No description"
      when that is empty, paired with its syntax. */
  function FormatPage(entries: seq<Command>): (fields: seq<(string, string)>)
    ensures |fields| == |entries|
    ensures forall k :: 0 <= k < |entries| ==>
      fields[k].1 == SyntaxText(entries[k]) &&
      (entries[k].description == "" ==> fields[k].0 == "No description") &&
      (entries[k].description != "" ==> fields[k].0 == entries[k].description)
    decreases |entries|
  {
    if entries == [] then []
    else
      var e := entries[0];
      [(if e.description != "" then e.description else "No description", SyntaxText(e))]
        + FormatPage(entries[1..])
  }

  // ---------------------------------------------------------------------
  // show_help
  // ---------------------------------------------------------------------

  /** How a query is compared with a command. */
  datatype Query =
    | NameIs(name: string)            // `discord.utils.get(..., name=q)` and `subcmd.name == q`
    | AliasOrPartOfName(word: string) // `q in cmd.aliases or q in cmd.name`

  predicate Matches(c: Command, q: Query) {
    match q
    case NameIs(n) => c.name == n
    case AliasOrPartOfName(w) => w in c.aliases || Occurs(c.name, w)
  }

  /** The index of the first command the query matches. */
  function FirstMatch(cs: seq<Command>, q: Query): (r: Option<nat>)
    ensures r.Some? ==> r.value < |cs| && Matches(cs[r.value], q)
    ensures r.Some? ==> forall j :: 0 <= j < r.value ==> !Matches(cs[j], q)
    ensures r.None? ==> forall j :: 0 <= j < |cs| ==> !Matches(cs[j], q)
    decreases |cs|
  {
    if cs == [] then None
    else if Matches(cs[0], q) then Some(0)
    else match FirstMatch(cs[1..], q)
      case None => None
      case Some(i) => Some(i + 1)
  }

  /** The search loop over the commands, stopping at the first match. */
  method FindCommand(cs: seq<Command>, q: Query) returns (r: Option<nat>)
    ensures r == FirstMatch(cs, q)
  {
    var i := 0;
    while i < |cs|
      invariant 0 <= i <= |cs|
      invariant forall j :: 0 <= j < i ==> !Matches(cs[j], q)
    {
      if Matches(cs[i], q) {
        FirstMatchUnique(cs, q, i);
        return Some(i);
      }
      i := i + 1;
    }
    FirstMatchUnique(cs, q, -1);
    return None;
  }

  /** The first match is the only index with the first-match property
      (-1 standing for no match at all). */
  lemma FirstMatchUnique(cs: seq<Command>, q: Query, i: int)
    requires -1 <= i < |cs|
    requires i >= 0 ==> Matches(cs[i], q) && forall j :: 0 <= j < i ==> !Matches(cs[j], q)
    requires i == -1 ==> forall j :: 0 <= j < |cs| ==> !Matches(cs[j], q)
    ensures FirstMatch(cs, q) == if i == -1 then None else Some(i)
  {
  }

  /** `str.capitalize` over ASCII: the first character upper case, the
      rest lower case. */
  function Capitalize(s: string): (r: string)
    ensures |r| == |s|
  {
    if s == [] then []
    else [if 'a' <= s[0] <= 'z' then (s[0] as int - 32) as char else s[0]] + Lower(s[1..])
  }

  /** What the help command answers. */
  datatype HelpReply =
    | Overview                                     // the list of modules
    | ModuleMissing                                // "That module does not exist."
    | ModuleMenu(cog: string)                      // a menu of the module's commands
    | ModuleWithoutCommands(cog: string)           // "This module has no commands."
    | GroupMenu(group: Command)                    // a menu of the group's subcommands
    | CommandHelp(command: Command)                // the description of one command
    | NoSubcommands(groupWord: string)             // "... doesn't have any subcommands!"
    | NoSubcommandNamed(groupWord: string, sub: string)
    | CommandMissing                               // "That command does not exist"

  /** `not x` for an optional argument: absent or empty. */
  predicate Blank(x: Option<string>) {
    x.None? || x.value == ""
  }

  /** The reply to `help module command`, given the bot's modules (each with
      its commands) and its top-level commands in iteration order. */
  function HelpReplyFor(moduleArg: Option<string>, command: Option<string>,
                        cogs: map<string, seq<Command>>, commands: seq<Command>): (r: HelpReply)
    ensures r == Overview <==> Blank(moduleArg)
    ensures r == ModuleMissing <==> !Blank(moduleArg) && Capitalize(moduleArg.value) !in cogs
    ensures (r.ModuleMenu? || r.ModuleWithoutCommands?) <==>
              !Blank(moduleArg) && Capitalize(moduleArg.value) in cogs && Blank(command)
  {
    if Blank(moduleArg) then Overview
    else
      var cog := Capitalize(moduleArg.value);
      if cog !in cogs then ModuleMissing
      else if Blank(command) then
        (if cogs[cog] != [] then ModuleMenu(cog) else ModuleWithoutCommands(cog))
      else CommandReply(command.value, commands)
  }

  /** The command part of the reply, for a non-empty query. */
  function CommandReply(query: string, commands: seq<Command>): (r: HelpReply)
    ensures !r.Overview? && !r.ModuleMissing? && !r.ModuleMenu? && !r.ModuleWithoutCommands?
    ensures (exists j :: 0 <= j < |commands| && commands[j].name == query) ==> r.GroupMenu? || r.CommandHelp?
    ensures r.GroupMenu? ==> r.group in commands && r.group.name == query && r.group.subcommands.Some?
    ensures r == CommandMissing ==> forall j :: 0 <= j < |commands| ==> commands[j].name != query
  {
    match FirstMatch(commands, NameIs(query))
    case Some(i) =>
      if commands[i].subcommands.Some? then GroupMenu(commands[i]) else CommandHelp(commands[i])
    case None =>
      if ' ' in query then
        var words := Split(query, ' ');
        var group, sub := words[0], if |words| > 1 then words[1] else "";
        match FirstMatch(commands, AliasOrPartOfName(group))
        case None => CommandMissing
        case Some(i) =>
          match commands[i].subcommands
          case None => NoSubcommands(group)
          case Some(subs) =>
            match FirstMatch(subs, NameIs(sub))
            case Some(j) => CommandHelp(subs[j])
            case None => NoSubcommandNamed(group, sub)
      else
        match FirstMatch(commands, AliasOrPartOfName(query))
        case Some(i) => CommandHelp(commands[i])
        case None => CommandMissing
  }

  /** `show_help`: the searches run as loops that stop at the first
      match. */
  method ShowHelp(moduleArg: Option<string>, command: Option<string>,
                  cogs: map<string, seq<Command>>, commands: seq<Command>) returns (reply: HelpReply)
    ensures reply == HelpReplyFor(moduleArg, command, cogs, commands)
  {
    if Blank(moduleArg) {
      return Overview;
    }
    var cog := Capitalize(moduleArg.value);
    if cog !in cogs {
      return ModuleMissing;
    }
    if Blank(command) {
      if cogs[cog] != [] {
        return ModuleMenu(cog);
      }
      return ModuleWithoutCommands(cog);
    }
    reply := AnswerCommand(command.value, commands);
  }

  method AnswerCommand(query: string, commands: seq<Command>) returns (reply: HelpReply)
    ensures reply == CommandReply(query, commands)
  {
    var exact := FindCommand(commands, NameIs(query));
    if exact.Some? {
      var c := commands[exact.value];
      if c.subcommands.Some? {
        return GroupMenu(c);
      }
      return CommandHelp(c);
    }
    if ' ' in query {
      var words := Split(query, ' ');
      var group := words[0];
      var sub := if |words| > 1 then words[1] else "";
      var found := FindCommand(commands, AliasOrPartOfName(group));
      if found.None? {
        return CommandMissing;
      }
      var c := commands[found.value];
      if c.subcommands.None? {
        return NoSubcommands(group);
      }
      var inner := FindCommand(c.subcommands.value, NameIs(sub));
      if inner.Some? {
        return CommandHelp(c.subcommands.value[inner.value]);
      }
      return NoSubcommandNamed(group, sub);
    }
    var loose := FindCommand(commands, AliasOrPartOfName(query));
    if loose.Some? {
      return CommandHelp(commands[loose.value]);
    }
    return CommandMissing;
  }

  // ---------------------------------------------------------------------
  // Properties of the lookup
  // ---------------------------------------------------------------------

  /** A command whose name is exactly the query is always the one
      described, ahead of any earlier command that merely contains it. */
  lemma ExactNameWins(query: string, commands: seq<Command>, i: nat)
    requires i < |commands| && commands[i].name == query
    requires forall j :: 0 <= j < i ==> commands[j].name != query
    ensures CommandReply(query, commands) ==
      if commands[i].subcommands.Some? then GroupMenu(commands[i]) else CommandHelp(commands[i])
  {
    FirstMatchUnique(commands, NameIs(query), i);
  }

  /** For a one-word query that names no command exactly, the command
      described is the first whose aliases hold the word or whose name
      contains it. */
  lemma OneWordPicksFirstMatch(query: string, commands: seq<Command>)
    requires ' ' !in query
    requires forall j :: 0 <= j < |commands| ==> commands[j].name != query
    ensures CommandReply(query, commands).CommandHelp? ==>
      exists i :: 0 <= i < |commands| && CommandReply(query, commands).command == commands[i] &&
        (query in commands[i].aliases || Occurs(commands[i].name, query)) &&
        forall j :: 0 <= j < i ==> !(query in commands[j].aliases || Occurs(commands[j].name, query))
    ensures CommandReply(query, commands) == CommandMissing <==>
      forall j :: 0 <= j < |commands| ==> !(query in commands[j].aliases || Occurs(commands[j].name, query))
  {
    FirstMatchUnique(commands, NameIs(query), -1);
    var r := FirstMatch(commands, AliasOrPartOfName(query));
    if r.Some? {
      var i := r.value;
      assert Matches(commands[i], AliasOrPartOfName(query));
      assert forall j :: 0 <= j < i ==> !Matches(commands[j], AliasOrPartOfName(query));
    }
  }

  /** A query that matches nothing, not even partly, is answered with
      "That command does not exist" (on a known module). */
  lemma UnknownCommandAnswered(moduleArg: string, query: string,
                               cogs: map<string, seq<Command>>, commands: seq<Command>)
    requires moduleArg != "" && Capitalize(moduleArg) in cogs && query != "" && ' ' !in query
    requires forall j :: 0 <= j < |commands| ==>
      commands[j].name != query && query !in commands[j].aliases && !Occurs(commands[j].name, query)
    ensures HelpReplyFor(Some(moduleArg), Some(query), cogs, commands) == CommandMissing
  {
    FirstMatchUnique(commands, NameIs(query), -1);
    FirstMatchUnique(commands, AliasOrPartOfName(query), -1);
  }
}
