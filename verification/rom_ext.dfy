/**
  ROM file-extension lookup (console/console_ext.c lines 37-70).

  The extension list is chosen by case-sensitive substring tests on the
  identifier the linked emulator core reports; the first test that matches
  wins. When none matches, the override stored by SetRomExt is used if it is
  non-empty, and otherwise there is no list (NULL).
*/
module RomExt {
  import opened Wrappers
  import opened CString

  /** Capacity of the static g_rom_ext buffer, terminator included. */
  const OverrideCapacity: nat := 1024

  const SnesExts: string := "smc|fig|sfc|gd3|gd7|dx2|bsx|swc|zip|SMC|FIG|SFC|BSX|GD3|GD7|DX2|SWC|ZIP"
  const FceuExts: string := "fds|FDS|zip|ZIP|nes|NES|unif|UNIF"
  const VbaExts: string := "gb|gbc|gba|GBA|GB|GBC|zip|ZIP"
  const GambatteExts: string := "gb|gbc|GB|GBC|zip|ZIP"
  const FbaExts: string := "zip|ZIP"
  const GenesisExts: string := "md|smd|bin|gen|zip|MD|SMD|bin|GEN|ZIP|sms|SMS|gg|GG|sg|SG"

  /** One row of the decision table: any of the patterns selects exts. */
  datatype Rule = Rule(patterns: seq<string>, exts: string)

  /** The decision table, in the order the code tests it. */
  const Table: seq<Rule> := [
    Rule(["SNES"], SnesExts),
    Rule(["FCEU"], FceuExts),
    Rule(["VBA", "Meteor"], VbaExts),
    Rule(["gambatte"], GambatteExts),
    Rule(["FB Alpha"], FbaExts),
    Rule(["Genesis Plus GX"], GenesisExts)
  ]

  predicate Matches(rule: Rule, id: CStr) {
    exists p :: p in rule.patterns && Contains(id, p)
  }

  /** The first rule of `rules` that matches id. */
  function FirstMatch(rules: seq<Rule>, id: CStr): (r: Option<Rule>)
    ensures r.Some? ==> r.value in rules && Matches(r.value, id)
    ensures r.Some? ==> exists k :: 0 <= k < |rules| && rules[k] == r.value
                                   && forall j :: 0 <= j < k ==> !Matches(rules[j], id)
    ensures r.None? <==> forall k :: 0 <= k < |rules| ==> !Matches(rules[k], id)
  {
    if |rules| == 0 then None
    else if Matches(rules[0], id) then Some(rules[0])
    else FirstMatch(rules[1..], id)
  }

  /** ssnes_console_set_rom_ext: the override the static buffer holds afterwards. */
  function SetRomExt(ext: CStr): (stored: CStr)
    ensures |stored| < OverrideCapacity
    ensures stored <= ext
    ensures |ext| < OverrideCapacity ==> stored == ext
    ensures |ext| >= OverrideCapacity ==> |stored| == OverrideCapacity - 1
  {
    Strlcpy(ext, OverrideCapacity)
  }

  /**
    ssnes_console_get_rom_ext for the core identifier id and the currently
    stored override. None stands for the NULL return.
  */
  function GetRomExt(id: CStr, stored: CStr): (r: Option<string>)
    ensures r.Some? ==> |r.value| > 0
    ensures Contains(id, "SNES") ==> r == Some(SnesExts)
  {
    if Contains(id, "SNES") then Some(SnesExts)
    else if Contains(id, "FCEU") then Some(FceuExts)
    else if Contains(id, "VBA") || Contains(id, "Meteor") then Some(VbaExts)
    else if Contains(id, "gambatte") then Some(GambatteExts)
    else if Contains(id, "FB Alpha") then Some(FbaExts)
    else if Contains(id, "Genesis Plus GX") then Some(GenesisExts)
    else if stored != [] then Some(stored)
    else None
  }

  /** The if-chain is exactly "first matching row of Table, else the override, else NULL". */
  lemma GetRomExtFollowsTable(id: CStr, stored: CStr)
    ensures GetRomExt(id, stored) ==
      match FirstMatch(Table, id)
      case Some(rule) => Some(rule.exts)
      case None => if stored != [] then Some(stored) else None
  {
    var t := Table;
    MatchesOne(t[0], id);
    MatchesOne(t[1], id);
    MatchesTwo(t[2], id);
    MatchesOne(t[3], id);
    MatchesOne(t[4], id);
    MatchesOne(t[5], id);
    assert FirstMatch(t, id) == if Matches(t[0], id) then Some(t[0]) else FirstMatch(t[1..], id);
    assert FirstMatch(t[1..], id) == if Matches(t[1], id) then Some(t[1]) else FirstMatch(t[2..], id);
    assert FirstMatch(t[2..], id) == if Matches(t[2], id) then Some(t[2]) else FirstMatch(t[3..], id);
    assert FirstMatch(t[3..], id) == if Matches(t[3], id) then Some(t[3]) else FirstMatch(t[4..], id);
    assert FirstMatch(t[4..], id) == if Matches(t[4], id) then Some(t[4]) else FirstMatch(t[5..], id);
    assert FirstMatch(t[5..], id) == if Matches(t[5], id) then Some(t[5]) else FirstMatch(t[6..], id);
    assert FirstMatch(t[6..], id) == None;
  }

  lemma MatchesOne(rule: Rule, id: CStr)
    requires |rule.patterns| == 1
    ensures Matches(rule, id) <==> Contains(id, rule.patterns[0])
  {
    if Contains(id, rule.patterns[0]) {
      assert rule.patterns[0] in rule.patterns;
    }
  }

  lemma MatchesTwo(rule: Rule, id: CStr)
    requires |rule.patterns| == 2
    ensures Matches(rule, id) <==> Contains(id, rule.patterns[0]) || Contains(id, rule.patterns[1])
  {
    if Contains(id, rule.patterns[0]) {
      assert rule.patterns[0] in rule.patterns;
    }
    if Contains(id, rule.patterns[1]) {
      assert rule.patterns[1] in rule.patterns;
    }
  }

  /** NULL is returned exactly when no row matches and no override is stored. */
  lemma GetRomExtNullIff(id: CStr, stored: CStr)
    ensures GetRomExt(id, stored).None? <==> stored == [] && forall k :: 0 <= k < |Table| ==> !Matches(Table[k], id)
  {
    GetRomExtFollowsTable(id, stored);
  }

  /** A core id matched by the table ignores the override entirely. */
  lemma TableBeatsOverride(id: CStr, stored1: CStr, stored2: CStr)
    requires exists k :: 0 <= k < |Table| && Matches(Table[k], id)
    ensures GetRomExt(id, stored1) == GetRomExt(id, stored2)
  {
    GetRomExtFollowsTable(id, stored1);
    GetRomExtFollowsTable(id, stored2);
  }

  /**
    Setting an override and reading it back for a core the table does not
    know returns the override, truncated to the buffer's capacity.
  */
  lemma SetThenGet(id: CStr, ext: CStr)
    requires forall k :: 0 <= k < |Table| ==> !Matches(Table[k], id)
    requires ext != []
    ensures GetRomExt(id, SetRomExt(ext)) == Some(if |ext| < OverrideCapacity then ext else ext[..OverrideCapacity - 1])
  {
    GetRomExtFollowsTable(id, SetRomExt(ext));
  }
}
