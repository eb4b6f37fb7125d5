/** Text helpers of the bot's utilities (util/__init__.py): `ordinal_suffix`
    and the placeholder substitution of `personalize_message`. */
module UtilText {
  import opened Wrappers
  import opened PyText

  // ---------------------------------------------------------------------
  // ordinal_suffix
  // ---------------------------------------------------------------------

  /** The English ordinal suffix of `n`: "th" for 11 to 13 modulo 100,
      otherwise "st", "nd", "rd" after a last digit of 1, 2, 3, and "th"
      after any other. */
  function EnglishSuffix(n: int): (s: string)
    ensures |s| == 2
    ensures s == "st" <==> n % 10 == 1 && n % 100 != 11
    ensures s == "nd" <==> n % 10 == 2 && n % 100 != 12
    ensures s == "rd" <==> n % 10 == 3 && n % 100 != 13
    ensures s == "th" <==> n % 10 !in {1, 2, 3} || 11 <= n % 100 <= 13
  {
    var last, lastTwo := n % 10, n % 100;
    LastDigitOfLastTwo(n);
    SuffixesDistinct();
    if 11 <= lastTwo <= 13 then "th"
    else if last == 1 then "st"
    else if last == 2 then "nd"
    else if last == 3 then "rd"
    else "th"
  }

  lemma LastDigitOfLastTwo(n: int)
    ensures (n % 100) % 10 == n % 10
  {
    var q := n / 100;
    assert n == 100 * q + n % 100;
    assert n % 100 == 10 * ((n % 100) / 10) + (n % 100) % 10;
    assert n == 10 * (10 * q + (n % 100) / 10) + (n % 100) % 10;
  }

  /** The four suffixes are different texts. */
  lemma SuffixesDistinct()
    ensures "st" != "nd" && "st" != "rd" && "st" != "th"
    ensures "nd" != "rd" && "nd" != "th" && "rd" != "th"
  {
    assert "st"[0] == 's' && "nd"[0] == 'n' && "rd"[0] == 'r' && "th"[0] == 't';
  }

  /** `ordinal_suffix(n)`: the number followed by its English ordinal
      suffix. Python's `%` by a positive number is never negative, like
      Dafny's, so a negative number gets the suffix of its residue. */
  function OrdinalSuffix(n: int): (r: string)
    ensures |r| >= 3
    ensures r[..|r| - 2] == IntToString(n)
    ensures r[|r| - 2..] == EnglishSuffix(n)
  {
    var digits := IntToString(n);
    assert |digits| >= 1 by {
      if n < 0 { assert digits == "-" + NatDigits(-n, 10); }
    }
    var suffix := EnglishSuffix(n);
    assert (digits + suffix)[..|digits|] == digits;
    assert (digits + suffix)[|digits|..] == suffix;
    digits + suffix
  }

  /** The number in front of the suffix reads back as `n`. */
  lemma OrdinalNumberReadsBack(n: int)
    ensures var r := OrdinalSuffix(n); ParseInt(r[..|r| - 2], 10) == Some(n)
  {
    IntToStringRoundTrip(n);
  }

  /** The suffix depends on the last two digits only. */
  lemma OrdinalSuffixPeriodic(n: int)
    ensures var a, b := OrdinalSuffix(n), OrdinalSuffix(n + 100);
            a[|a| - 2..] == b[|b| - 2..]
  {
    assert (n + 100) % 100 == n % 100;
    assert (n + 100) % 10 == n % 10;
    SameDigitsSameSuffix(n, n + 100);
  }

  /** Numbers that agree in their last two digits take the same suffix. */
  lemma SameDigitsSameSuffix(a: int, b: int)
    requires a % 10 == b % 10 && a % 100 == b % 100
    ensures EnglishSuffix(a) == EnglishSuffix(b)
  {
  }

  // ---------------------------------------------------------------------
  // personalize_message
  // ---------------------------------------------------------------------

  /** What `personalize_message` reads of the member. A member without a
      custom avatar has no `avatar`. */
  datatype MemberInfo = MemberInfo(
    mention: string,
    nick: Option<string>,
    globalName: Option<string>,
    name: string,
    avatarUrl: Option<string>,
    guildName: string)

  /** The guild's channels or roles: by id (`get_channel`/`get_role`) and
      by name (`discord.utils.get(..., name=...)`, the first match). */
  datatype Directory = Directory(byId: map<nat, string>, byName: map<string, string>)

  /** `f"{member.nick or member.global_name}"`: an empty or missing nick
      falls back to the global name, and a missing one prints "None". */
  function NicknameText(m: MemberInfo): (r: string)
    ensures m.nick.Some? && m.nick.value != "" ==> r == m.nick.value
  {
    if m.nick.Some? && m.nick.value != "" then m.nick.value
    else if m.globalName.Some? then m.globalName.value
    else "None"
  }

  /** The fixed placeholders and their values, in the order they are
      replaced. */
  function FixedMapping(m: MemberInfo, avatarUrl: string, channel: string, oldLevel: int, newLevel: int)
    : (pairs: seq<(string, string)>)
    ensures |pairs| == 10
    ensures forall k :: 0 <= k < |pairs| ==> |pairs[k].0| > 0 && pairs[k].0[0] == '{'
  {
    [("{user}", m.mention),
     ("{nickname}", NicknameText(m)),
     ("{username}", m.name),
     ("{avatar}", avatarUrl),
     ("{server}", m.guildName),
     ("{channel}", channel),
     ("{level}", IntToString(newLevel)),
     ("{old_level}", IntToString(oldLevel)),
     ("{everyone}", "@everyone"),
     ("{here}", "@here")]
  }

  /** Each pair replaced in turn, the first pair first. */
  function ReplaceEach(s: string, pairs: seq<(string, string)>): string
    requires forall k :: 0 <= k < |pairs| ==> |pairs[k].0| > 0
    decreases |pairs|
  {
    if pairs == [] then s
    else Replace(ReplaceEach(s, pairs[..|pairs| - 1]), pairs[|pairs| - 1].0, pairs[|pairs| - 1].1)
  }

  /** The index of the first '}' of `t`, provided no newline comes before
      it: where the lazy `(.*?)}` of the pattern stops. */
  function CloseAt(t: string): (r: Option<nat>)
    ensures r.Some? ==> r.value < |t| && t[r.value] == '}'
    ensures r.Some? ==> forall i :: 0 <= i < r.value ==> t[i] != '}' && t[i] != '\n'
    ensures r.None? ==> forall i :: 0 <= i < |t| && t[i] == '}' ==> exists j :: 0 <= j < i && t[j] == '\n'
  {
    if t == [] then None
    else if t[0] == '}' then Some(0)
    else if t[0] == '\n' then None
    else match CloseAt(t[1..])
      case None =>
        assert forall i :: 1 <= i < |t| && t[i] == '}' ==> exists j :: 0 <= j < i && t[j] == '\n' by {
          forall i | 1 <= i < |t| && t[i] == '}' ensures exists j :: 0 <= j < i && t[j] == '\n' {
            assert t[1..][i - 1] == '}';
            var j :| 0 <= j < i - 1 && t[1..][j] == '\n';
            assert t[j + 1] == '\n';
          }
        }
        None
      case Some(j) => Some(j + 1)
  }

  /** `re.findall(r"{S(.*?)}", s)` for the sigil S: the names of the
      placeholders from left to right, none containing '}' or a newline. */
  function FindPlaceholders(s: string, sigil: char): (names: seq<string>)
    ensures forall k :: 0 <= k < |names| ==> '}' !in names[k] && '\n' !in names[k]
    decreases |s|
  {
    if |s| < 2 then []
    else if s[0] == '{' && s[1] == sigil then
      match CloseAt(s[2..])
      case Some(j) =>
        var name := s[2..][..j];
        assert forall i :: 0 <= i < |name| ==> name[i] != '}' && name[i] != '\n';
        [name] + FindPlaceholders(s[2..][j + 1..], sigil)
      case None => FindPlaceholders(s[1..], sigil)
    else FindPlaceholders(s[1..], sigil)
  }

  /** The channel or role a placeholder names: by id when the name is all
      digits, otherwise by name. */
  function Resolve(name: string, dir: Directory): (r: Option<string>)
    ensures r.Some? && IsDecimal(name) ==> DigitsValue(name, 10) in dir.byId && r.value == dir.byId[DigitsValue(name, 10)]
    ensures r.Some? && !IsDecimal(name) ==> name in dir.byName && r.value == dir.byName[name]
    ensures r.None? <==> (IsDecimal(name) && DigitsValue(name, 10) !in dir.byId) || (!IsDecimal(name) && name !in dir.byName)
  {
    if IsDecimal(name) then
      if DigitsValue(name, 10) in dir.byId then Some(dir.byId[DigitsValue(name, 10)]) else None
    else if name in dir.byName then Some(dir.byName[name]) else None
  }

  /** The placeholder text `{S name}` for the sigil S. */
  function Placeholder(sigil: char, name: string): string {
    ['{', sigil] + name + ['}']
  }

  /** Each resolvable placeholder replaced in turn by its mention. */
  function SubstituteEach(s: string, names: seq<string>, sigil: char, dir: Directory): string
    decreases |names|
  {
    if names == [] then s
    else
      var t := SubstituteEach(s, names[..|names| - 1], sigil, dir);
      var name := names[|names| - 1];
      match Resolve(name, dir)
      case None => t
      case Some(mention) => Replace(t, Placeholder(sigil, name), mention)
  }

  /** The result of `personalize_message`, or None for the AttributeError of
      a member without an avatar. */
  function Personalized(m: MemberInfo, message: string, channel: string, oldLevel: int, newLevel: int,
                        channels: Directory, roles: Directory): (r: Option<string>)
    ensures r.None? <==> m.avatarUrl.None?
  {
    match m.avatarUrl
    case None => None
    case Some(url) =>
      var fixed := ReplaceEach(message, FixedMapping(m, url, channel, oldLevel, newLevel));
      var withChannels := SubstituteEach(fixed, FindPlaceholders(fixed, '#'), '#', channels);
      Some(SubstituteEach(withChannels, FindPlaceholders(withChannels, '@'), '@', roles))
  }

  /** `personalize_message`: the fixed placeholders are replaced one after
      the other, then every `{#name}` found whose channel exists, then every
      `{@name}` found in the new text whose role exists. */
  method PersonalizeMessage(m: MemberInfo, message: string, channel: string, oldLevel: int, newLevel: int,
                            channels: Directory, roles: Directory) returns (r: Option<string>)
    ensures r == Personalized(m, message, channel, oldLevel, newLevel, channels, roles)
  {
    if m.avatarUrl.None? {
      return None;
    }
    var mapping := FixedMapping(m, m.avatarUrl.value, channel, oldLevel, newLevel);
    var text := message;
    var i := 0;
    while i < |mapping|
      invariant 0 <= i <= |mapping|
      invariant text == ReplaceEach(message, mapping[..i])
    {
      assert mapping[..i + 1][..i] == mapping[..i];
      text := Replace(text, mapping[i].0, mapping[i].1);
      i := i + 1;
    }
    assert mapping[..i] == mapping;
    text := SubstituteFound(text, '#', channels);
    text := SubstituteFound(text, '@', roles);
    return Some(text);
  }

  /** One placeholder pass: find the placeholders, then replace those whose
      lookup succeeds. */
  method SubstituteFound(message: string, sigil: char, dir: Directory) returns (text: string)
    ensures text == SubstituteEach(message, FindPlaceholders(message, sigil), sigil, dir)
  {
    var names := FindPlaceholders(message, sigil);
    text := message;
    var i := 0;
    while i < |names|
      invariant 0 <= i <= |names|
      invariant text == SubstituteEach(message, names[..i], sigil, dir)
    {
      assert names[..i + 1][..i] == names[..i];
      var found := Resolve(names[i], dir);
      if found.Some? {
        text := Replace(text, Placeholder(sigil, names[i]), found.value);
      }
      i := i + 1;
    }
    assert names[..i] == names;
  }

  // ---------------------------------------------------------------------
  // Properties
  // ---------------------------------------------------------------------

  /** A pattern starting with '{' occurs nowhere in text without '{'. */
  lemma {:induction false} NoBraceNoOccurrence(s: string, p: string)
    requires '{' !in s && |p| > 0 && p[0] == '{'
    ensures !Occurs(s, p)
    decreases |s|
  {
    if |s| > 0 {
      assert s[0] != '{';
      assert '{' !in s[1..];
      NoBraceNoOccurrence(s[1..], p);
    }
  }

  /** Text without any fixed placeholder comes out of the fixed stage
      unchanged. */
  lemma {:induction false} ReplaceEachAbsent(s: string, pairs: seq<(string, string)>)
    requires forall k :: 0 <= k < |pairs| ==> |pairs[k].0| > 0 && !Occurs(s, pairs[k].0)
    ensures ReplaceEach(s, pairs) == s
    decreases |pairs|
  {
    if pairs != [] {
      ReplaceEachAbsent(s, pairs[..|pairs| - 1]);
      ReplaceAbsent(s, pairs[|pairs| - 1].0, pairs[|pairs| - 1].1);
    }
  }

  /** Replacing the pairs of `a + b` is replacing those of `a`, then those
      of `b`. */
  lemma {:induction false} ReplaceEachConcat(s: string, a: seq<(string, string)>, b: seq<(string, string)>)
    requires forall k :: 0 <= k < |a| ==> |a[k].0| > 0
    requires forall k :: 0 <= k < |b| ==> |b[k].0| > 0
    ensures forall k :: 0 <= k < |a + b| ==> |(a + b)[k].0| > 0
    ensures ReplaceEach(s, a + b) == ReplaceEach(ReplaceEach(s, a), b)
    decreases |b|
  {
    assert forall k :: 0 <= k < |a + b| ==> (a + b)[k] == if k < |a| then a[k] else b[k - |a|];
    if b == [] {
      assert a + b == a;
    } else {
      var b' := b[..|b| - 1];
      ReplaceEachConcat(s, a, b');
      assert (a + b)[..|a + b| - 1] == a + b';
    }
  }

  /** The last pair replaced leaves no occurrence of its key when its value
      has no '{' and every '{' of the text before it starts that key. */
  lemma LastKeyGone(s: string, pairs: seq<(string, string)>)
    requires forall k :: 0 <= k < |pairs| ==> |pairs[k].0| > 0 && pairs[k].0[0] == '{'
    requires pairs != [] && '{' !in pairs[|pairs| - 1].1
    requires BracesStart(ReplaceEach(s, pairs[..|pairs| - 1]), pairs[|pairs| - 1].0)
    ensures !Occurs(ReplaceEach(s, pairs), pairs[|pairs| - 1].0)
  {
    var key := pairs[|pairs| - 1].0;
    ReplaceLeavesNoBrace(ReplaceEach(s, pairs[..|pairs| - 1]), key, pairs[|pairs| - 1].1);
    NoBraceNoOccurrence(ReplaceEach(s, pairs), key);
  }

  /** The fixed pass does not clear every key: "{user}" is replaced before
      "{nickname}", so a member nicknamed "{user}" leaves "{user}" in the
      text. */
  lemma NicknameMayWriteKey(m: MemberInfo, avatarUrl: string, channel: string, oldLevel: int, newLevel: int)
    requires m.nick == Some("{user}")
    ensures ReplaceEach("{nickname}", FixedMapping(m, avatarUrl, channel, oldLevel, newLevel)) == "{user}"
  {
    var pairs := FixedMapping(m, avatarUrl, channel, oldLevel, newLevel);
    var b := pairs[2..];
    assert pairs == [("{user}", m.mention), ("{nickname}", "{user}")] + b;
    UserWrittenBack(m.mention, b);
  }

  lemma UserWrittenBack(mention: string, b: seq<(string, string)>)
    requires forall k :: 0 <= k < |b| ==> b[k].0 in ["{username}", "{avatar}", "{server}", "{channel}", "{level}", "{old_level}", "{everyone}", "{here}"]
    ensures forall k :: 0 <= k < |[("{user}", mention), ("{nickname}", "{user}")] + b| ==>
              |([("{user}", mention), ("{nickname}", "{user}")] + b)[k].0| > 0
    ensures ReplaceEach("{nickname}", [("{user}", mention), ("{nickname}", "{user}")] + b) == "{user}"
  {
    var a := [("{user}", mention), ("{nickname}", "{user}")];
    assert forall k :: 0 <= k < |b| ==> |b[k].0| > 0;
    ReplaceEachConcat("{nickname}", a, b);
    FirstTwoPairs(mention);
    UserFreeOfLaterKeys(b);
    ReplaceEachAbsent("{user}", b);
  }

  lemma FirstTwoPairs(mention: string)
    ensures ReplaceEach("{nickname}", [("{user}", mention), ("{nickname}", "{user}")]) == "{user}"
  {
    var a := [("{user}", mention), ("{nickname}", "{user}")];
    var one := a[..1];
    assert one == [("{user}", mention)];
    var zero := one[..0];
    assert zero == [];
    var first := ReplaceEach("{nickname}", one);
    assert first == Replace(ReplaceEach("{nickname}", zero), "{user}", mention);
    assert ReplaceEach("{nickname}", zero) == "{nickname}";
    assert ReplaceEach("{nickname}", a) == Replace(first, "{nickname}", "{user}");
    NicknameStage(mention);
  }

  /** The first two fixed pairs turn "{nickname}" into "{user}" when the
      nickname is "{user}". */
  lemma NicknameStage(mention: string)
    ensures Replace(Replace("{nickname}", "{user}", mention), "{nickname}", "{user}") == "{user}"
  {
    NicknameLacksUser();
    ReplaceAbsent("{nickname}", "{user}", mention);
    ReplaceWhole("{nickname}", "{user}");
  }

  lemma NicknameLacksUser()
    ensures !Occurs("{nickname}", "{user}")
  {
    assert !StartsWith("{nickname}", "{user}") by { assert "{nickname}"[..6][1] != "{user}"[1]; }
    assert "{nickname}"[1..] == "nickname}";
    NoBraceNoOccurrence("nickname}", "{user}");
  }

  /** None of the keys after "{nickname}" occurs in "{user}". */
  lemma UserFreeOfLaterKeys(b: seq<(string, string)>)
    requires forall k :: 0 <= k < |b| ==> b[k].0 in ["{username}", "{avatar}", "{server}", "{channel}", "{level}", "{old_level}", "{everyone}", "{here}"]
    ensures forall k :: 0 <= k < |b| ==> !Occurs("{user}", b[k].0)
  {
    forall k | 0 <= k < |b| ensures !Occurs("{user}", b[k].0) {
      if |b[k].0| > 6 {
        ShorterNoOccurrence("{user}", b[k].0);
      } else {
        assert b[k].0 == "{here}";
        assert !StartsWith("{user}", "{here}") by { assert "{user}"[1] != "{here}"[1]; }
        ShorterNoOccurrence("{user}"[1..], "{here}");
      }
    }
  }

  /** The last resolvable name found is replaced at the leftmost occurrence
      of its placeholder, and the scan carries on after it. */
  lemma SubstituteStepAtFirst(s: string, names: seq<string>, sigil: char, dir: Directory, i: nat)
    requires names != [] && Resolve(names[|names| - 1], dir).Some?
    requires var t := SubstituteEach(s, names[..|names| - 1], sigil, dir);
             var p := Placeholder(sigil, names[|names| - 1]);
             i + |p| <= |t| && t[i..i + |p|] == p && NoneBefore(t, p, i)
    ensures var t := SubstituteEach(s, names[..|names| - 1], sigil, dir);
            var p := Placeholder(sigil, names[|names| - 1]);
            var mention := Resolve(names[|names| - 1], dir).value;
            SubstituteEach(s, names, sigil, dir) == t[..i] + mention + Replace(t[i + |p|..], p, mention)
  {
    var t := SubstituteEach(s, names[..|names| - 1], sigil, dir);
    var p := Placeholder(sigil, names[|names| - 1]);
    ReplaceAtFirst(t, p, Resolve(names[|names| - 1], dir).value, i);
  }

  /** A resolved placeholder is gone after its step when its mention has no
      '{' and every '{' of the text before the step starts that
      placeholder. */
  lemma ResolvedPlaceholderGone(s: string, names: seq<string>, sigil: char, dir: Directory)
    requires names != [] && Resolve(names[|names| - 1], dir).Some?
    requires '{' !in Resolve(names[|names| - 1], dir).value
    requires BracesStart(SubstituteEach(s, names[..|names| - 1], sigil, dir), Placeholder(sigil, names[|names| - 1]))
    ensures !Occurs(SubstituteEach(s, names, sigil, dir), Placeholder(sigil, names[|names| - 1]))
  {
    var t := SubstituteEach(s, names[..|names| - 1], sigil, dir);
    var p := Placeholder(sigil, names[|names| - 1]);
    ReplaceLeavesNoBrace(t, p, Resolve(names[|names| - 1], dir).value);
    NoBraceNoOccurrence(SubstituteEach(s, names, sigil, dir), p);
  }

  /** Placeholders whose lookups all fail are left verbatim. */
  lemma {:induction false} UnresolvedKept(s: string, names: seq<string>, sigil: char, dir: Directory)
    requires forall k :: 0 <= k < |names| ==> Resolve(names[k], dir).None?
    ensures SubstituteEach(s, names, sigil, dir) == s
    decreases |names|
  {
    if names != [] {
      UnresolvedKept(s, names[..|names| - 1], sigil, dir);
    }
  }

  /** The names found whose lookup succeeds, in order. */
  function ResolvedOnly(names: seq<string>, dir: Directory): (r: seq<string>)
    ensures |r| <= |names|
    ensures forall k :: 0 <= k < |r| ==> r[k] in names && Resolve(r[k], dir).Some?
    decreases |names|
  {
    if names == [] then []
    else
      var init := ResolvedOnly(names[..|names| - 1], dir);
      var last := names[|names| - 1];
      assert forall k :: 0 <= k < |init| ==> init[k] in names by {
        forall k | 0 <= k < |init| ensures init[k] in names {
          var j :| 0 <= j < |names| - 1 && names[..|names| - 1][j] == init[k];
          assert names[j] == init[k];
        }
      }
      if Resolve(last, dir).Some? then init + [last] else init
  }

  /** Each placeholder whose lookup fails is skipped: substituting all the
      names found is substituting just the resolvable ones. */
  lemma {:induction false} UnresolvedSkipped(s: string, names: seq<string>, sigil: char, dir: Directory)
    ensures SubstituteEach(s, names, sigil, dir) == SubstituteEach(s, ResolvedOnly(names, dir), sigil, dir)
    decreases |names|
  {
    if names != [] {
      var init := names[..|names| - 1];
      var last := names[|names| - 1];
      UnresolvedSkipped(s, init, sigil, dir);
      if Resolve(last, dir).Some? {
        var r := ResolvedOnly(init, dir) + [last];
        assert r[..|r| - 1] == ResolvedOnly(init, dir);
      }
    }
  }

  /** Text without '{' holds no placeholder. */
  lemma {:induction false} NoBraceNoPlaceholders(s: string, sigil: char)
    requires '{' !in s
    ensures FindPlaceholders(s, sigil) == []
    decreases |s|
  {
    if |s| >= 2 {
      assert s[0] != '{';
      assert '{' !in s[1..];
      NoBraceNoPlaceholders(s[1..], sigil);
    }
  }

  /** A message without any '{' comes back unchanged (for a member with an
      avatar). */
  lemma PlainMessageUnchanged(m: MemberInfo, message: string, channel: string, oldLevel: int, newLevel: int,
                              channels: Directory, roles: Directory)
    requires '{' !in message && m.avatarUrl.Some?
    ensures Personalized(m, message, channel, oldLevel, newLevel, channels, roles) == Some(message)
  {
    var pairs := FixedMapping(m, m.avatarUrl.value, channel, oldLevel, newLevel);
    forall k | 0 <= k < |pairs| ensures !Occurs(message, pairs[k].0) {
      NoBraceNoOccurrence(message, pairs[k].0);
    }
    ReplaceEachAbsent(message, pairs);
    NoBraceNoPlaceholders(message, '#');
    NoBraceNoPlaceholders(message, '@');
  }

  /** A message whose only placeholders are channel and role names that do
      not resolve comes back unchanged: they are left verbatim. */
  lemma UnresolvedMessageUnchanged(m: MemberInfo, message: string, channel: string, oldLevel: int, newLevel: int,
                                   channels: Directory, roles: Directory)
    requires m.avatarUrl.Some?
    requires forall k :: 0 <= k < |FixedMapping(m, m.avatarUrl.value, channel, oldLevel, newLevel)| ==>
               !Occurs(message, FixedMapping(m, m.avatarUrl.value, channel, oldLevel, newLevel)[k].0)
    requires forall name :: name in FindPlaceholders(message, '#') ==> Resolve(name, channels).None?
    requires forall name :: name in FindPlaceholders(message, '@') ==> Resolve(name, roles).None?
    ensures Personalized(m, message, channel, oldLevel, newLevel, channels, roles) == Some(message)
  {
    ReplaceEachAbsent(message, FixedMapping(m, m.avatarUrl.value, channel, oldLevel, newLevel));
    UnresolvedKept(message, FindPlaceholders(message, '#'), '#', channels);
    UnresolvedKept(message, FindPlaceholders(message, '@'), '@', roles);
  }

  /** A member without an avatar makes `personalize_message` fail, whatever
      the message. */
  lemma NoAvatarFails(m: MemberInfo, message: string, channel: string, oldLevel: int, newLevel: int,
                      channels: Directory, roles: Directory)
    requires m.avatarUrl.None?
    ensures Personalized(m, message, channel, oldLevel, newLevel, channels, roles).None?
  {
  }
}
