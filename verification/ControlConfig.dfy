// The layered configuration of the trigger rules: code defaults, the global
// configuration, and the row of a group.
module ControlConfig {
  import opened Options
  import opened ControlSpec

  const DAY := 1440

  // ---- "HH:MM" ----

  // Remainder as the program computes it: with the sign of the dividend.
  function TruncMod(a: int, b: int): int
    requires b > 0
  {
    if a >= 0 then a % b else -((-a) % b)
  }

  function DigitChar(d: int): char
    requires 0 <= d < 10
  {
    '0' + d as char
  }

  predicate IsDigit(c: char)
  {
    '0' <= c <= '9'
  }

  function DigitValue(c: char): (d: int)
    requires IsDigit(c)
    ensures 0 <= d < 10 && DigitChar(d) == c
  {
    c as int - '0' as int
  }

  function TwoDigits(n: int): string
    requires 0 <= n < 100
  {
    [DigitChar(n / 10), DigitChar(n % 10)]
  }

  function FormatHM(minute: int): string
  {
    var m := TruncMod(TruncMod(minute, DAY) + DAY, DAY);
    TwoDigits(m / 60) + ":" + TwoDigits(m % 60)
  }

  // What follows the hour: a colon and exactly two digits.
  function ParseMinutes(hour: int, rest: string): Option<int>
  {
    if |rest| == 3 && rest[0] == ':' && IsDigit(rest[1]) && IsDigit(rest[2]) && hour < 24 then
      var minute := DigitValue(rest[1]) * 10 + DigitValue(rest[2]);
      if minute < 60 then Some(hour * 60 + minute) else None
    else None
  }

  // Parsing with layout "15:04": one or two digits for the hour.
  function ParseHM(s: string): Option<int>
  {
    if |s| >= 2 && IsDigit(s[0]) && IsDigit(s[1]) then
      ParseMinutes(DigitValue(s[0]) * 10 + DigitValue(s[1]), s[2..])
    else if |s| >= 1 && IsDigit(s[0]) then ParseMinutes(DigitValue(s[0]), s[1..])
    else None
  }

  lemma TwoDigitsValue(n: int)
    requires 0 <= n < 100
    ensures var t := TwoDigits(n);
            IsDigit(t[0]) && IsDigit(t[1]) && DigitValue(t[0]) * 10 + DigitValue(t[1]) == n
  {
  }

  lemma ValueTwoDigits(a: char, b: char)
    requires IsDigit(a) && IsDigit(b)
    ensures TwoDigits(DigitValue(a) * 10 + DigitValue(b)) == [a, b]
  {
  }

  lemma MinutesMeaning(hour: int, rest: string)
    requires ParseMinutes(hour, rest).Some? && 0 <= hour
    ensures var m := ParseMinutes(hour, rest).value;
            0 <= m < DAY && m / 60 == hour && rest == ":" + TwoDigits(m % 60)
  {
    ValueTwoDigits(rest[1], rest[2]);
    assert rest == [':', rest[1], rest[2]];
  }

  lemma MinutesParse(hour: int, n: int)
    requires 0 <= hour < 24 && 0 <= n < 60
    ensures ParseMinutes(hour, ":" + TwoDigits(n)) == Some(hour * 60 + n)
  {
    TwoDigitsValue(n);
    var rest := ":" + TwoDigits(n);
    assert rest[1] == TwoDigits(n)[0] && rest[2] == TwoDigits(n)[1];
  }

  lemma FormatOfMinute(m: int)
    requires 0 <= m < DAY
    ensures FormatHM(m) == TwoDigits(m / 60) + (":" + TwoDigits(m % 60))
  {
    assert TruncMod(TruncMod(m, DAY) + DAY, DAY) == m;
  }

  lemma FormatNormalises(minute: int)
    ensures FormatHM(minute) == FormatHM(minute % DAY)
  {
    assert TruncMod(TruncMod(minute, DAY) + DAY, DAY) == minute % DAY;
    assert TruncMod(TruncMod(minute % DAY, DAY) + DAY, DAY) == minute % DAY;
  }

  lemma LongParses(hour: int, n: int, s: string)
    requires 0 <= hour < 24 && 0 <= n < 60 && s == TwoDigits(hour) + (":" + TwoDigits(n))
    ensures ParseHM(s) == Some(hour * 60 + n)
  {
    TwoDigitsValue(hour);
    MinutesParse(hour, n);
    assert s[0] == TwoDigits(hour)[0] && s[1] == TwoDigits(hour)[1];
    assert s[2..] == ":" + TwoDigits(n);
  }

  // Parsing undoes formatting, for any number of minutes, negative ones included.
  lemma FormatParses(minute: int)
    ensures ParseHM(FormatHM(minute)) == Some(minute % DAY)
  {
    var m := minute % DAY;
    FormatNormalises(minute);
    FormatOfMinute(m);
    LongParses(m / 60, m % 60, FormatHM(m));
  }

  // s is a formatted minute, or one with its leading zero left out.
  predicate Denotes(s: string, m: int)
  {
    0 <= m < DAY && (s == FormatHM(m) || (m < 600 && s == FormatHM(m)[1..]))
  }

  // Exactly such strings parse, each to the minute it denotes.
  lemma ParseMeaning(s: string, m: int)
    ensures ParseHM(s) == Some(m) <==> Denotes(s, m)
  {
    if ParseHM(s) == Some(m) { ParsedIsFormatted(s); }
    if Denotes(s, m) {
      FormatParses(m);
      if s != FormatHM(m) { ShortParses(m); }
    }
  }

  lemma ParsedIsFormatted(s: string)
    requires ParseHM(s).Some?
    ensures Denotes(s, ParseHM(s).value)
  {
    var m := ParseHM(s).value;
    if IsDigit(s[1]) {
      var hour := DigitValue(s[0]) * 10 + DigitValue(s[1]);
      MinutesMeaning(hour, s[2..]);
      FormatOfMinute(m);
      ValueTwoDigits(s[0], s[1]);
      assert s == [s[0], s[1]] + s[2..];
    } else {
      MinutesMeaning(DigitValue(s[0]), s[1..]);
      FormatOfMinute(m);
      ValueTwoDigits('0', s[0]);
      assert s == [s[0]] + s[1..];
      assert FormatHM(m) == ['0', s[0]] + s[1..];
      assert FormatHM(m)[1..] == s;
    }
  }

  lemma ShortParses(m: int)
    requires 0 <= m < 600
    ensures ParseHM(FormatHM(m)[1..]) == Some(m)
  {
    FormatOfMinute(m);
    MinutesParse(m / 60, m % 60);
    var s := FormatHM(m)[1..];
    assert s[0] == DigitChar(m / 60) && s[1] == ':';
    assert s[1..] == ":" + TwoDigits(m % 60);
  }

  // ---- The three layers ----

  datatype StateConfig = StateConfig(
    energyMax: int, energyCost: int, energyRecover: int, energyThreshold: int,
    cooldown: int, consecutiveLimit: int, rest: int,
    quietStart: string, quietEnd: string, shortChars: int)

  datatype GroupConfig = GroupConfig(groupID: string, mode: string, state: StateConfig, mgmtEnabled: int)

  const DEFAULTS := StateConfig(100, 10, 5, 20, 60, 5, 300, "23:00", "07:00", 4)
  const DEFAULT_QUIET_START := 1380
  const DEFAULT_QUIET_END := 420

  lemma DefaultHoursParse()
    ensures ParseHM(DEFAULTS.quietStart) == Some(DEFAULT_QUIET_START)
    ensures ParseHM(DEFAULTS.quietEnd) == Some(DEFAULT_QUIET_END)
  {
    LongParses(23, 0, DEFAULTS.quietStart);
    LongParses(7, 0, DEFAULTS.quietEnd);
  }

  // Zero means "not configured".
  function Override(base: int, v: int): int
  {
    if v != 0 then v else base
  }

  function OverrideHM(base: int, s: string): int
  {
    match ParseHM(s)
    case Some(m) => m
    case None => base
  }

  // mergeOverrides; newRuleConfig does the same on top of the defaults.
  function Merge(d: Rules, c: StateConfig): Rules
  {
    var start, end := OverrideHM(d.quietStart, c.quietStart), OverrideHM(d.quietEnd, c.quietEnd);
    Rules(
      Override(d.energyMax, c.energyMax), Override(d.energyCost, c.energyCost),
      Override(d.energyRecover, c.energyRecover), Override(d.energyThreshold, c.energyThreshold),
      Override(d.cooldown, c.cooldown), Override(d.consecutiveLimit, c.consecutiveLimit),
      Override(d.rest, c.rest), start, end, start != end, Override(d.shortChars, c.shortChars))
  }

  const BASE := Rules(
    DEFAULTS.energyMax, DEFAULTS.energyCost, DEFAULTS.energyRecover, DEFAULTS.energyThreshold,
    DEFAULTS.cooldown, DEFAULTS.consecutiveLimit, DEFAULTS.rest,
    DEFAULT_QUIET_START, DEFAULT_QUIET_END, DEFAULT_QUIET_START != DEFAULT_QUIET_END, DEFAULTS.shortChars)

  function NewRules(cfg: StateConfig): Rules { Merge(BASE, cfg) }

  // defaultGroupConfig: the effective global values as a row.
  function Snapshot(d: Rules): StateConfig
  {
    StateConfig(d.energyMax, d.energyCost, d.energyRecover, d.energyThreshold,
                d.cooldown, d.consecutiveLimit, d.rest,
                FormatHM(d.quietStart), FormatHM(d.quietEnd), d.shortChars)
  }

  const MENTION := "mention"
  const AUTO := "auto"

  function NormalizeMode(mode: string): string { if mode == AUTO then AUTO else MENTION }

  function DefaultRow(defaultMode: string, d: Rules, groupID: string): GroupConfig
  {
    GroupConfig(groupID, NormalizeMode(defaultMode), Snapshot(d), 1)
  }

  type Table = map<string, GroupConfig>

  // resolveParams: the mode and rules of a message's group, None when the row
  // cannot be read, and the table afterwards.
  function Resolve(defaultMode: string, d: Rules, table: Table, groupID: string, readOk: bool, writeOk: bool)
    : (Option<(string, Rules)>, Table)
  {
    if groupID == "" then (Some((defaultMode, d)), table)
    else if !readOk then (None, table)
    else if groupID in table then
      var row := table[groupID];
      (Some((NormalizeMode(if row.mode != "" then row.mode else defaultMode), Merge(d, row.state))), table)
    else
      (Some((NormalizeMode(defaultMode), d)),
       if writeOk then table[groupID := DefaultRow(defaultMode, d, groupID)] else table)
  }

  // ---- What a layer means ----

  // A number of the layer above is in effect unless it is zero.
  ghost predicate Number(below: int, above: int, effect: int)
  {
    (above != 0 ==> effect == above) && (above == 0 ==> effect == below)
  }

  // An hour of the layer above is in effect exactly if it denotes a minute.
  ghost predicate Hour(below: int, above: string, effect: int)
  {
    && (forall m | Denotes(above, m) :: effect == m)
    && ((forall m :: !Denotes(above, m)) ==> effect == below)
  }

  // The rules p are those of the layer c, and of the layer d below where c says
  // nothing; quiet hours are set unless they are empty.
  ghost predicate LaidOver(d: Rules, c: StateConfig, p: Rules)
  {
    && Number(d.energyMax, c.energyMax, p.energyMax) && Number(d.energyCost, c.energyCost, p.energyCost)
    && Number(d.energyRecover, c.energyRecover, p.energyRecover)
    && Number(d.energyThreshold, c.energyThreshold, p.energyThreshold)
    && Number(d.cooldown, c.cooldown, p.cooldown)
    && Number(d.consecutiveLimit, c.consecutiveLimit, p.consecutiveLimit)
    && Number(d.rest, c.rest, p.rest) && Number(d.shortChars, c.shortChars, p.shortChars)
    && Hour(d.quietStart, c.quietStart, p.quietStart) && Hour(d.quietEnd, c.quietEnd, p.quietEnd)
    && (p.quietSet <==> p.quietStart != p.quietEnd)
  }

  // The layer of a group's row or of the global configuration: "auto" if it says
  // so or, being blank, leaves it to the layer below; else "mention".
  ghost predicate ModeOver(below: string, above: string, mode: string)
  {
    && (mode == "auto" || mode == "mention")
    && (mode == "auto" <==> above == "auto" || (above == "" && below == "auto"))
  }

  // What is in effect for a group, given its row if there is one; a private
  // chat has no group and takes the global values as they are.
  ghost predicate InEffect(defaultMode: string, d: Rules, table: Table, groupID: string, mode: string, p: Rules)
  {
    if groupID == "" then mode == defaultMode && p == d
    else if groupID in table then
      ModeOver(defaultMode, table[groupID].mode, mode) && LaidOver(d, table[groupID].state, p)
    else ModeOver(defaultMode, "", mode) && p == d
  }

  lemma HourOfMinute(base: int, s: string)
    ensures Hour(base, s, OverrideHM(base, s))
  {
    forall m ensures ParseHM(s) == Some(m) <==> Denotes(s, m) { ParseMeaning(s, m); }
  }

  lemma MergeIsLaidOver(d: Rules, c: StateConfig)
    ensures LaidOver(d, c, Merge(d, c))
  {
    hide Denotes, ParseHM;
    HourOfMinute(d.quietStart, c.quietStart);
    HourOfMinute(d.quietEnd, c.quietEnd);
  }

  lemma HourIsUnique(below: int, above: string, m: int, n: int)
    requires Hour(below, above, m) && Hour(below, above, n)
    ensures m == n
  {
    if k :| Denotes(above, k) { assert m == k == n; }
  }

  // There is only one way to lay a layer over another, and one effect of a row.
  lemma EffectIsUnique(defaultMode: string, d: Rules, table: Table, groupID: string,
                       mode: string, p: Rules, mode': string, p': Rules)
    requires InEffect(defaultMode, d, table, groupID, mode, p)
    requires InEffect(defaultMode, d, table, groupID, mode', p')
    ensures mode == mode' && p == p'
  {
    if groupID != "" && groupID in table {
      var c := table[groupID].state;
      HourIsUnique(d.quietStart, c.quietStart, p.quietStart, p'.quietStart);
      HourIsUnique(d.quietEnd, c.quietEnd, p.quietEnd, p'.quietEnd);
    }
  }

  // A row that the first message of a group has created: named like the group,
  // in the mode and with the rules in effect, group management left on.
  ghost predicate Recorded(defaultMode: string, d: Rules, groupID: string, row: GroupConfig)
  {
    && row.groupID == groupID && row.mgmtEnabled == 1
    && row.mode != "" && ModeOver(defaultMode, "", row.mode)
    && (WellFormed(d) ==> Hour(0, row.state.quietStart, d.quietStart) && Hour(0, row.state.quietEnd, d.quietEnd))
    && row.state.energyMax == d.energyMax && row.state.energyCost == d.energyCost
    && row.state.energyRecover == d.energyRecover && row.state.energyThreshold == d.energyThreshold
    && row.state.cooldown == d.cooldown && row.state.consecutiveLimit == d.consecutiveLimit
    && row.state.rest == d.rest && row.state.shortChars == d.shortChars
  }

  lemma DefaultRowRecords(defaultMode: string, d: Rules, groupID: string)
    ensures Recorded(defaultMode, d, groupID, DefaultRow(defaultMode, d, groupID))
  {
    if WellFormed(d) {
      OverrideFormatted(0, d.quietStart);
      OverrideFormatted(0, d.quietEnd);
      HourOfMinute(0, FormatHM(d.quietStart));
      HourOfMinute(0, FormatHM(d.quietEnd));
    }
  }

  lemma EffectIsWellFormed(defaultMode: string, d: Rules, table: Table, groupID: string, mode: string, p: Rules)
    requires WellFormed(d) && InEffect(defaultMode, d, table, groupID, mode, p)
    ensures WellFormed(p)
  {
    if groupID != "" && groupID in table {
      var c := table[groupID].state;
      MergeIsLaidOver(d, c);
      HourIsUnique(d.quietStart, c.quietStart, p.quietStart, Merge(d, c).quietStart);
      HourIsUnique(d.quietEnd, c.quietEnd, p.quietEnd, Merge(d, c).quietEnd);
      MergeWellFormed(d, c);
    }
  }

  // The layers over the defaults of the code.
  lemma GlobalRules(cfg: StateConfig)
    ensures LaidOver(Rules(100, 10, 5, 20, 60, 5, 300, 23 * 60, 7 * 60, true, 4), cfg, NewRules(cfg))
    ensures WellFormed(NewRules(cfg))
  {
    MergeIsLaidOver(BASE, cfg);
    MergeWellFormed(BASE, cfg);
  }

  // A resolution fails exactly if the row cannot be read, and otherwise answers
  // what is in effect; the table gains at most the row of a group without one.
  lemma ResolveMeaning(defaultMode: string, d: Rules, table: Table, groupID: string, readOk: bool, writeOk: bool)
    ensures var (r, t) := Resolve(defaultMode, d, table, groupID, readOk, writeOk);
            && (r == None <==> groupID != "" && !readOk)
            && (r.Some? ==> InEffect(defaultMode, d, table, groupID, r.value.0, r.value.1))
            && Gained(defaultMode, d, table, t, if groupID != "" && readOk && writeOk then {groupID} else {})
  {
    if groupID in table { MergeIsLaidOver(d, table[groupID].state); }
    DefaultRowRecords(defaultMode, d, groupID);
  }

  lemma ResolvesToEffect(defaultMode: string, d: Rules, table: Table, groupID: string, readOk: bool, writeOk: bool,
                         mode: string, p: Rules)
    requires InEffect(defaultMode, d, table, groupID, mode, p)
    ensures Resolve(defaultMode, d, table, groupID, readOk, writeOk).0 ==
            if groupID != "" && !readOk then None else Some((mode, p))
  {
    hide Resolve, InEffect;
    ResolveMeaning(defaultMode, d, table, groupID, readOk, writeOk);
    var r := Resolve(defaultMode, d, table, groupID, readOk, writeOk).0;
    if r.Some? { EffectIsUnique(defaultMode, d, table, groupID, mode, p, r.value.0, r.value.1); }
  }

  // The rows of the named groups have been created where there were none, and
  // nothing else has changed.
  ghost predicate Gained(defaultMode: string, d: Rules, before: Table, after: Table, groups: set<string>)
  {
    && after.Keys == before.Keys + groups
    && (forall g | g in before :: after[g] == before[g])
    && (forall g | g in groups && g !in before :: Recorded(defaultMode, d, g, after[g]))
  }

  // Quiet hours are minutes of a day, and set unless they are empty.
  ghost predicate WellFormed(d: Rules)
  {
    && 0 <= d.quietStart < DAY && 0 <= d.quietEnd < DAY
    && (d.quietSet <==> d.quietStart != d.quietEnd)
  }

  lemma MergeWellFormed(d: Rules, c: StateConfig)
    requires WellFormed(d)
    ensures WellFormed(Merge(d, c))
  {
    if ParseHM(c.quietStart).Some? { ParsedIsFormatted(c.quietStart); }
    if ParseHM(c.quietEnd).Some? { ParsedIsFormatted(c.quietEnd); }
  }

  lemma OverrideFormatted(base: int, m: int)
    requires 0 <= m < DAY
    ensures OverrideHM(base, FormatHM(m)) == m
  {
    FormatParses(m);
  }

  // Laying the snapshot of the effective rules over them changes nothing.
  lemma MergeSnapshot(d: Rules)
    requires WellFormed(d)
    ensures Merge(d, Snapshot(d)) == d
  {
    OverrideFormatted(d.quietStart, d.quietStart);
    OverrideFormatted(d.quietEnd, d.quietEnd);
  }

  // Creating a group's row changes no answer: whatever the global configuration,
  // the mode and rules of every group are the same before and after any message
  // of any group has been resolved, whether or not the row could be written.
  lemma AutoRowIsInvisible(defaultMode: string, cfg: StateConfig, table: Table,
                           seen: string, readOk: bool, writeOk: bool, groupID: string, readOk': bool, writeOk': bool)
    ensures var d := NewRules(cfg);
            var table' := Resolve(defaultMode, d, table, seen, readOk, writeOk).1;
            Resolve(defaultMode, d, table', groupID, readOk', writeOk').0 ==
            Resolve(defaultMode, d, table, groupID, readOk', writeOk').0
  {
    MergeWellFormed(BASE, cfg);
    MergeSnapshot(NewRules(cfg));
  }

  // A private chat is resolved without normalising the mode, so under an
  // unknown or empty global mode its replies are recorded although a group's
  // are not: the two differ exactly when the mode is neither of the two known.
  lemma PrivateModeIsNotNormalised(defaultMode: string, d: Rules, groupID: string)
    requires groupID != ""
    ensures var chat := Resolve(defaultMode, d, map[], "", true, true).0.value.0;
            var group := Resolve(defaultMode, d, map[], groupID, true, true).0.value.0;
            (chat == MENTION <==> group == MENTION) <==> defaultMode == MENTION || defaultMode == AUTO
  {
  }

  // ---- What the administration accepts ----

  predicate Blank(s: string, isSpace: char -> bool)
  {
    forall i | 0 <= i < |s| :: isSpace(s[i])
  }

  predicate ValidHM(s: string)
  {
    s == "" || ParseHM(s).Some?
  }

  predicate ValidConfig(c: GroupConfig, isSpace: char -> bool)
  {
    var st := c.state;
    && !Blank(c.groupID, isSpace)
    && (c.mode == MENTION || c.mode == AUTO)
    && (c.mgmtEnabled == 0 || c.mgmtEnabled == 1)
    && st.energyMax >= 0 && st.energyCost >= 0 && st.energyRecover >= 0 && st.energyThreshold >= 0
    && st.cooldown >= 0 && st.consecutiveLimit >= 0 && st.rest >= 0 && st.shortChars >= 0
    && ValidHM(st.quietStart) && ValidHM(st.quietEnd)
  }

  ghost predicate NonNegative(d: Rules)
  {
    && d.energyMax >= 0 && d.energyCost >= 0 && d.energyRecover >= 0 && d.energyThreshold >= 0
    && d.cooldown >= 0 && d.consecutiveLimit >= 0 && d.rest >= 0 && d.shortChars >= 0
  }

  // The administration can save an auto-created row unchanged, if and only if
  // the group has a name and no global parameter is negative.
  lemma AutoRowIsValid(defaultMode: string, d: Rules, groupID: string, isSpace: char -> bool)
    ensures ValidConfig(DefaultRow(defaultMode, d, groupID), isSpace) <==>
            !Blank(groupID, isSpace) && NonNegative(d)
  {
    FormatParses(d.quietStart);
    FormatParses(d.quietEnd);
  }

  // The administration accepts a row exactly if its group has a name, no number
  // is negative, the switch is one, and the row means what it says: its mode is
  // in effect whatever the global one, and each hour it names denotes a minute.
  lemma AcceptedMeansWhatItSays(c: GroupConfig, isSpace: char -> bool)
    ensures ValidConfig(c, isSpace) <==>
            && (exists i | 0 <= i < |c.groupID| :: !isSpace(c.groupID[i]))
            && 0 <= c.mgmtEnabled < 2
            && (forall below, mode | ModeOver(below, c.mode, mode) :: mode == c.mode)
            && (c.state.quietStart == "" || exists m :: Denotes(c.state.quietStart, m))
            && (c.state.quietEnd == "" || exists m :: Denotes(c.state.quietEnd, m))
            && c.state.energyMax >= 0 && c.state.energyCost >= 0 && c.state.energyRecover >= 0
            && c.state.energyThreshold >= 0 && c.state.cooldown >= 0 && c.state.consecutiveLimit >= 0
            && c.state.rest >= 0 && c.state.shortChars >= 0
  {
    HourOrBlank(c.state.quietStart);
    HourOrBlank(c.state.quietEnd);
    assert ModeOver("mention", c.mode, if c.mode == "auto" then "auto" else "mention");
    if c.mode == "" { assert ModeOver("auto", c.mode, "auto"); }
  }

  lemma HourOrBlank(s: string)
    ensures ValidHM(s) <==> s == "" || exists m :: Denotes(s, m)
  {
    if ParseHM(s).Some? {
      ParseMeaning(s, ParseHM(s).value);
    } else if m :| Denotes(s, m) {
      ParseMeaning(s, m);
    }
  }

  // Rows the administration accepts keep the rules positive.
  lemma ValidRowKeepsPositive(d: Rules, c: GroupConfig, isSpace: char -> bool)
    requires Positive(d) && WellFormed(d) && ValidConfig(c, isSpace)
    ensures Positive(Merge(d, c.state)) && WellFormed(Merge(d, c.state))
  {
    MergeWellFormed(d, c.state);
  }

  // ---- Quiet hours ----

  // The quiet stretch runs from start to end around the clock.
  lemma QuietHoursAreCyclic(d: Rules, minute: int)
    requires WellFormed(d) && 0 <= minute < DAY
    ensures InQuietHours(d, minute) <==>
            (minute - d.quietStart) % DAY < (d.quietEnd - d.quietStart) % DAY
  {
  }

  // Swapping unequal ends gives the rest of the day.
  lemma SwappedQuietHours(d: Rules, minute: int)
    requires WellFormed(d) && d.quietSet && 0 <= minute < DAY
    ensures InQuietHours(d.(quietStart := d.quietEnd, quietEnd := d.quietStart), minute) <==>
            !InQuietHours(d, minute)
  {
  }

  // ---- The verdict on an auto message ----

  // The energy after the whole minutes since it was last noted, never more than
  // the maximum; by RecoverIsTicking, what recovery once a minute makes of it.
  function RecoveredEnergy(st: State, p: Rules, now: int): int
  {
    var minutes := if now <= st.energyUpdatedAt then 0 else (now - st.energyUpdatedAt) / 60;
    var full := st.energy + minutes * p.energyRecover;
    if minutes > 0 && full > p.energyMax then p.energyMax else full
  }

  // Four rules, in this order: long enough, awake, rested, and neither in the
  // cooldown nor in a rest. The reason is the first one that fails, and the
  // message passes if none does.
  ghost predicate Judged(st: State, p: Rules, now: int, minute: int, chars: int, reason: Reason)
  {
    var long := chars >= p.shortChars;
    var awake := (minute - p.quietStart) % 1440 >= (p.quietEnd - p.quietStart) % 1440;
    var rested := RecoveredEnergy(st, p, now) >= p.energyThreshold;
    var free := now >= st.restUntil && now - st.lastReplyAt >= p.cooldown;
    && (reason == AutoPass <==> long && awake && rested && free)
    && (reason == ShortMessage <==> !long)
    && (reason == QuietHours <==> long && !awake)
    && (reason == LowEnergy <==> long && awake && !rested)
    && (reason == Cooldown <==> long && awake && rested && !free)
  }

  lemma AutoDecisionMeaning(st: State, p: Rules, now: int, minute: int, chars: int)
    requires WellFormed(p) && 0 <= minute < 1440
    ensures Judged(st, p, now, minute, chars, AutoDecision(st, p, now, minute, chars))
  {
    QuietHoursAreCyclic(p, minute);
  }
}
