/** The condition list and the statistics cards of the health overview page
    (client/app/dashboard/health-overview/page.tsx): the union of every
    member's conditions, `calculateStats` with its two tallies and its
    first-strict-maximum picks, and the display strings of the cards. */
module HealthStats {
  import opened Wrappers
  import opened JsStrings
  import opened JsRecord
  import opened Seqs
  import opened HealthMember

  // ---------------------------------------------------------------------------
  // The condition union
  // ---------------------------------------------------------------------------

  /** Every member's conditions, member by member, in the order the nested
      `forEach` visits them. */
  function Flatten(members: seq<Member>): seq<string> {
    if members == [] then []
    else Flatten(members[..|members| - 1]) + members[|members| - 1].medicalConditions
  }

  /** The conditions some member lists. */
  ghost function ConditionUnion(members: seq<Member>): set<string> {
    set i, c | 0 <= i < |members| && c in members[i].medicalConditions :: c
  }

  lemma {:induction false} FlattenElements(members: seq<Member>)
    ensures Elements(Flatten(members)) == ConditionUnion(members)
  {
    if members != [] {
      var front := members[..|members| - 1];
      var last := members[|members| - 1];
      FlattenElements(front);
      assert Elements(Flatten(members)) == Elements(Flatten(front)) + Elements(last.medicalConditions);
      forall c | c in ConditionUnion(members)
        ensures c in ConditionUnion(front) + Elements(last.medicalConditions)
      {
        var i :| 0 <= i < |members| && c in members[i].medicalConditions;
        if i < |front| {
          assert c in front[i].medicalConditions;
        }
      }
      forall c | c in ConditionUnion(front) ensures c in ConditionUnion(members) {
        var i :| 0 <= i < |front| && c in front[i].medicalConditions;
        assert c in members[i].medicalConditions;
      }
      assert last == members[|members| - 1];
    }
  }

  lemma DedupSnoc(t: seq<string>, c: string)
    ensures Dedup(t + [c]) == if c in Dedup(t) then Dedup(t) else Dedup(t) + [c]
  {
    assert (t + [c])[..|t + [c]| - 1] == t;
  }

  lemma DedupStep(done: seq<string>, cs: seq<string>, j: nat)
    requires j < |cs|
    ensures Dedup(done + cs[..j + 1]) ==
            if cs[j] in Dedup(done + cs[..j]) then Dedup(done + cs[..j]) else Dedup(done + cs[..j]) + [cs[j]]
  {
    assert done + cs[..j + 1] == (done + cs[..j]) + [cs[j]];
    DedupSnoc(done + cs[..j], cs[j]);
  }

  /** The inner `m.medicalConditions.forEach((c) => allConditions.add(c))`:
      `seen` is the `Set`, `conditions` the order in which it received its elements. */
  method AddConditions(ghost done: seq<string>, conditions: seq<string>, seen: set<string>, cs: seq<string>)
    returns (conditions': seq<string>, seen': set<string>)
    requires conditions == Dedup(done) && seen == Elements(conditions)
    ensures conditions' == Dedup(done + cs) && seen' == Elements(conditions')
  {
    conditions', seen' := conditions, seen;
    var j := 0;
    assert done + cs[..0] == done;
    while j < |cs|
      invariant 0 <= j <= |cs|
      invariant conditions' == Dedup(done + cs[..j])
      invariant seen' == Elements(conditions')
    {
      var c := cs[j];
      DedupStep(done, cs, j);
      ElementsSnoc(conditions', c);
      if c !in seen' {
        conditions' := conditions' + [c];
        seen' := seen' + {c};
      }
      j := j + 1;
    }
    assert cs[..|cs|] == cs;
  }

  /** Lines 173-177: every condition of every member is added to one `Set`, and
      `Array.from` lists them in the order they were first added. */
  method CollectConditions(members: seq<Member>) returns (conditions: seq<string>)
    ensures conditions == Dedup(Flatten(members))
  {
    conditions := [];
    var seen: set<string> := {};
    var i := 0;
    while i < |members|
      invariant 0 <= i <= |members|
      invariant conditions == Dedup(Flatten(members[..i]))
      invariant seen == Elements(conditions)
    {
      assert members[..i + 1][..i] == members[..i];
      assert Flatten(members[..i + 1]) == Flatten(members[..i]) + members[i].medicalConditions;
      conditions, seen := AddConditions(Flatten(members[..i]), conditions, seen, members[i].medicalConditions);
      i := i + 1;
    }
    assert members[..|members|] == members;
  }

  /** The collected list holds every condition some member has, each once, so
      its length (`uniqueConditions`) is the size of the union. */
  lemma ConditionsAreUnion(members: seq<Member>)
    ensures Distinct(Dedup(Flatten(members)))
    ensures Elements(Dedup(Flatten(members))) == ConditionUnion(members)
    ensures |Dedup(Flatten(members))| == |ConditionUnion(members)|
  {
    FlattenElements(members);
    DistinctCardinality(Dedup(Flatten(members)));
  }

  // ---------------------------------------------------------------------------
  // Condition counts
  // ---------------------------------------------------------------------------

  /** `members.filter((m) => m.medicalConditions.includes(c)).length`. */
  function CountWith(members: seq<Member>, c: string): nat {
    |Filter(members, (m: Member) => HasCondition(m, c))|
  }

  /** `conditionCounts` after `conditions.forEach`: one key per condition, in
      the order of `conditions`, a repeated condition writing its slot again. */
  function ConditionTally(members: seq<Member>, conditions: seq<string>): Record<int> {
    if conditions == [] then []
    else
      var c := conditions[|conditions| - 1];
      Put(ConditionTally(members, conditions[..|conditions| - 1]), c, CountWith(members, c) as int)
  }

  lemma ConditionTallyStep(members: seq<Member>, conditions: seq<string>, i: nat)
    requires i < |conditions|
    ensures ConditionTally(members, conditions[..i + 1]) ==
            Put(ConditionTally(members, conditions[..i]), conditions[i], CountWith(members, conditions[i]) as int)
  {
    assert conditions[..i + 1][..i] == conditions[..i];
  }

  method ConditionCounts(members: seq<Member>, conditions: seq<string>) returns (counts: Record<int>)
    ensures counts == ConditionTally(members, conditions)
  {
    counts := [];
    var i := 0;
    while i < |conditions|
      invariant 0 <= i <= |conditions|
      invariant counts == ConditionTally(members, conditions[..i])
    {
      ConditionTallyStep(members, conditions, i);
      counts := Put(counts, conditions[i], CountWith(members, conditions[i]) as int);
      i := i + 1;
    }
    assert conditions[..|conditions|] == conditions;
  }

  /** Each listed condition is counted by the number of members that have it,
      and a condition not listed has no entry. */
  lemma {:induction false} ConditionTallyGet(members: seq<Member>, conditions: seq<string>, c: string)
    ensures Get(ConditionTally(members, conditions), c) ==
            if c in conditions then Some(CountWith(members, c) as int) else None
  {
    if conditions != [] {
      var front := conditions[..|conditions| - 1];
      var last := conditions[|conditions| - 1];
      assert c in conditions <==> c in front || c == last by {
        assert conditions == front + [last];
      }
      var t := ConditionTally(members, front);
      ConditionTallyGet(members, front, c);
      assert ConditionTally(members, conditions) == Put(t, last, CountWith(members, last) as int);
      GetPut(t, last, CountWith(members, last) as int, c);
    }
  }

  /** The entries follow the first appearance of each condition, without repeats. */
  lemma {:induction false} ConditionTallyKeys(members: seq<Member>, conditions: seq<string>)
    ensures Keys(ConditionTally(members, conditions)) == Dedup(conditions)
    ensures DistinctKeys(ConditionTally(members, conditions))
  {
    if conditions != [] {
      var front := conditions[..|conditions| - 1];
      var c := conditions[|conditions| - 1];
      assert Dedup(conditions) == if c in Dedup(front) then Dedup(front) else Dedup(front) + [c] by {
        assert conditions == front + [c];
        DedupSnoc(front, c);
      }
      var t := ConditionTally(members, front);
      ConditionTallyKeys(members, front);
      PutKeys(t, c, CountWith(members, c) as int);
      PutKeepsDistinct(t, c, CountWith(members, c) as int);
    }
  }

  /** Counting a condition nobody has gives 0; one every member has gives the member count. */
  lemma CountWithBounds(members: seq<Member>, c: string)
    ensures CountWith(members, c) <= |members|
    ensures CountWith(members, c) == 0 <==> forall i :: 0 <= i < |members| ==> !HasCondition(members[i], c)
  {
    var f := Filter(members, (m: Member) => HasCondition(m, c));
    if CountWith(members, c) != 0 {
      assert HasCondition(f[0], c) && f[0] in members;
    }
  }

  // ---------------------------------------------------------------------------
  // The first strict maximum
  // ---------------------------------------------------------------------------

  /** The entry `Object.entries(...).forEach` leaves in (`mostCommon...`,
      `maxCount`): starting from `("", 0)`, an entry replaces the current one
      only when its count is strictly greater. */
  function Leader(entries: Record<int>): (string, int) {
    if entries == [] then ("", 0)
    else
      var best := Leader(entries[..|entries| - 1]);
      var last := entries[|entries| - 1];
      if last.1 > best.1 then last else best
  }

  /** The loop of lines 197-203 (and 216-222). */
  method MostCommon(entries: Record<int>) returns (key: string, maxCount: int)
    ensures (key, maxCount) == Leader(entries)
  {
    key, maxCount := "", 0;
    var i := 0;
    while i < |entries|
      invariant 0 <= i <= |entries|
      invariant (key, maxCount) == Leader(entries[..i])
    {
      assert entries[..i + 1][..i] == entries[..i];
      var (k, count) := entries[i];
      if count > maxCount {
        key, maxCount := k, count;
      }
      i := i + 1;
    }
    assert entries[..|entries|] == entries;
  }

  /** The leader's count is at least 0 and no entry's count exceeds it; when it
      is positive it is the entry at the first position holding that maximum;
      when no count is positive the leader stays `("", 0)`. */
  lemma {:induction false} LeaderIsFirstMaximum(entries: Record<int>)
    ensures Leader(entries).1 >= 0
    ensures forall i :: 0 <= i < |entries| ==> entries[i].1 <= Leader(entries).1
    ensures Leader(entries).1 > 0 ==>
              exists i :: 0 <= i < |entries| && entries[i] == Leader(entries)
                          && forall j :: 0 <= j < i ==> entries[j].1 < Leader(entries).1
    ensures (forall i :: 0 <= i < |entries| ==> entries[i].1 <= 0) ==> Leader(entries) == ("", 0)
  {
    if entries != [] {
      var front := entries[..|entries| - 1];
      var last := entries[|entries| - 1];
      LeaderIsFirstMaximum(front);
      var best := Leader(front);
      assert forall i :: 0 <= i < |front| ==> front[i] == entries[i];
      if last.1 > best.1 {
        assert entries[|entries| - 1] == Leader(entries);
      } else if best.1 > 0 {
        var i :| 0 <= i < |front| && front[i] == best && forall j :: 0 <= j < i ==> front[j].1 < best.1;
        assert entries[i] == Leader(entries);
      }
    }
  }

  /** The entry at position `j` of the condition tally pairs a listed condition with its count. */
  lemma TallyEntry(members: seq<Member>, conditions: seq<string>, j: nat)
    requires j < |ConditionTally(members, conditions)|
    ensures ConditionTally(members, conditions)[j].0 in conditions
    ensures ConditionTally(members, conditions)[j].1 == CountWith(members, ConditionTally(members, conditions)[j].0)
  {
    var t := ConditionTally(members, conditions);
    ConditionTallyKeys(members, conditions);
    GetAt(t, j);
    assert Keys(t)[j] == t[j].0;
    ConditionTallyGet(members, conditions, t[j].0);
  }

  /** Card "most common condition": the winning count is 0, and the winner
      the initial `("", 0)`, exactly when no member has any listed condition;
      otherwise the winner is a listed condition with that many members, and
      no listed condition has more. When no listed condition is the empty
      string, the winner is empty exactly in the first case. */
  lemma ConditionLeader(members: seq<Member>, conditions: seq<string>)
    ensures Leader(ConditionTally(members, conditions)).1 == 0 <==>
            forall i :: 0 <= i < |conditions| ==> CountWith(members, conditions[i]) == 0
    ensures Leader(ConditionTally(members, conditions)).1 == 0 ==> Leader(ConditionTally(members, conditions)) == ("", 0)
    ensures Leader(ConditionTally(members, conditions)).1 > 0 ==>
            && Leader(ConditionTally(members, conditions)).0 in conditions
            && CountWith(members, Leader(ConditionTally(members, conditions)).0) == Leader(ConditionTally(members, conditions)).1
            && forall i :: 0 <= i < |conditions| ==> CountWith(members, conditions[i]) <= Leader(ConditionTally(members, conditions)).1
    ensures "" !in conditions ==>
            (Leader(ConditionTally(members, conditions)).0 == "" <==>
             forall i :: 0 <= i < |conditions| ==> CountWith(members, conditions[i]) == 0)
  {
    var t := ConditionTally(members, conditions);
    var best := Leader(t);
    LeaderIsFirstMaximum(t);
    ConditionTallyKeys(members, conditions);
    forall i | 0 <= i < |conditions| ensures CountWith(members, conditions[i]) <= best.1 {
      var c := conditions[i];
      assert c in Elements(Dedup(conditions));
      var j :| 0 <= j < |Keys(t)| && Keys(t)[j] == c;
      TallyEntry(members, conditions, j);
    }
    if best.1 > 0 {
      var k :| 0 <= k < |t| && t[k] == best;
      TallyEntry(members, conditions, k);
    } else {
      forall j | 0 <= j < |t| ensures t[j].1 <= 0 {
        TallyEntry(members, conditions, j);
      }
    }
  }

  // ---------------------------------------------------------------------------
  // Blood type counts
  // ---------------------------------------------------------------------------

  /** `member.bloodType` is set, not empty, and equal to `t`. */
  predicate HasBloodType(m: Member, t: string) {
    Truthy(m.bloodType) && m.bloodType.value == t
  }

  /** The number of members whose blood type is `t`. */
  function BloodCount(members: seq<Member>, t: string): nat {
    |Filter(members, (m: Member) => HasBloodType(m, t))|
  }

  /** `bloodTypeCounts` after `members.forEach`: a member with a truthy blood
      type adds 1 to its slot, `|| 0` starting a new one; other members are skipped. */
  function BloodTally(members: seq<Member>): Record<int> {
    if members == [] then [] else AddBloodType(BloodTally(members[..|members| - 1]), members[|members| - 1])
  }

  /** The body of the `forEach` for one member. */
  function AddBloodType(t: Record<int>, m: Member): Record<int> {
    if Truthy(m.bloodType) then Put(t, m.bloodType.value, Get(t, m.bloodType.value).GetOr(0) + 1) else t
  }

  /** One member changes only the slot of its own blood type, by one. */
  lemma AddBloodTypeGet(t: Record<int>, m: Member, x: string)
    ensures Get(AddBloodType(t, m), x) == if HasBloodType(m, x) then Some(Get(t, x).GetOr(0) + 1) else Get(t, x)
  {
    if Truthy(m.bloodType) {
      GetPut(t, m.bloodType.value, Get(t, m.bloodType.value).GetOr(0) + 1, x);
    }
  }

  method BloodTypeCounts(members: seq<Member>) returns (counts: Record<int>)
    ensures counts == BloodTally(members)
  {
    counts := [];
    var i := 0;
    while i < |members|
      invariant 0 <= i <= |members|
      invariant counts == BloodTally(members[..i])
    {
      assert members[..i + 1][..i] == members[..i];
      var m := members[i];
      if Truthy(m.bloodType) {
        var bt := m.bloodType.value;
        counts := Put(counts, bt, Get(counts, bt).GetOr(0) + 1);
      }
      i := i + 1;
    }
    assert members[..|members|] == members;
  }

  /** Counting members by blood type one member at a time. */
  lemma BloodCountSnoc(front: seq<Member>, m: Member, t: string)
    ensures BloodCount(front + [m], t) == BloodCount(front, t) + if HasBloodType(m, t) then 1 else 0
  {
    assert (front + [m])[..|front + [m]| - 1] == front;
  }

  /** Each blood type some member has is counted by the number of members with
      it; a type nobody has, and the empty string, have no entry. */
  lemma {:induction false} BloodTallyContents(members: seq<Member>, t: string)
    ensures Get(BloodTally(members), t) == if BloodCount(members, t) > 0 then Some(BloodCount(members, t) as int) else None
  {
    if members != [] {
      var front := members[..|members| - 1];
      var m := members[|members| - 1];
      BloodTallyContents(front, t);
      assert members == front + [m];
      BloodCountSnoc(front, m, t);
      AddBloodTypeGet(BloodTally(front), m, t);
    }
  }

  /** Every entry of the blood tally counts at least one member, and no key is there twice. */
  lemma {:induction false} BloodTallyShape(members: seq<Member>)
    ensures forall i :: 0 <= i < |BloodTally(members)| ==> BloodTally(members)[i].1 >= 1
    ensures DistinctKeys(BloodTally(members))
  {
    if members != [] {
      BloodTallyShape(members[..|members| - 1]);
      AddBloodTypeShape(BloodTally(members[..|members| - 1]), members[|members| - 1]);
    }
  }

  lemma AddBloodTypeShape(t: Record<int>, m: Member)
    requires DistinctKeys(t)
    requires forall i :: 0 <= i < |t| ==> t[i].1 >= 1
    ensures forall i :: 0 <= i < |AddBloodType(t, m)| ==> AddBloodType(t, m)[i].1 >= 1
    ensures DistinctKeys(AddBloodType(t, m))
  {
    if Truthy(m.bloodType) {
      var bt := m.bloodType.value;
      if Get(t, bt).Some? {
        GetFound(t, bt);
        var j :| 0 <= j < |t| && t[j] == (bt, Get(t, bt).value);
      }
      PutShape(t, bt, Get(t, bt).GetOr(0) + 1);
    }
  }

  /** `Put` of a positive count keeps every count positive and every key single. */
  lemma PutShape(t: Record<int>, k: string, v: int)
    requires v >= 1 && DistinctKeys(t)
    requires forall i :: 0 <= i < |t| ==> t[i].1 >= 1
    ensures forall i :: 0 <= i < |Put(t, k, v)| ==> Put(t, k, v)[i].1 >= 1
    ensures DistinctKeys(Put(t, k, v))
  {
    PutEntries(t, k, v);
    PutKeepsDistinct(t, k, v);
    var r := Put(t, k, v);
    forall i | 0 <= i < |r| ensures r[i].1 >= 1 {
      if r[i] != (k, v) {
        var j :| 0 <= j < |t| && t[j] == r[i];
      }
    }
  }

  /** No member with a blood type: the tally stays empty. */
  lemma {:induction false} BloodTallyEmpty(members: seq<Member>)
    requires forall i :: 0 <= i < |members| ==> !Truthy(members[i].bloodType)
    ensures BloodTally(members) == []
  {
    if members != [] {
      BloodTallyEmpty(members[..|members| - 1]);
    }
  }

  /** The key at position `k` of the blood tally is a non-empty type some member has. */
  lemma KeyHasMembers(members: seq<Member>, k: nat)
    requires k < |BloodTally(members)|
    ensures BloodTally(members)[k].0 != "" && BloodCount(members, BloodTally(members)[k].0) > 0
  {
    var tally := BloodTally(members);
    var t := tally[k].0;
    assert t in Keys(tally) by { assert Keys(tally)[k] == t; }
    BloodTallyContents(members, t);
    GetNone(tally, t);
    FilterNone(members, (m: Member) => HasBloodType(m, ""));
    BloodTallyContents(members, "");
    GetNone(tally, "");
  }

  /** The blood-type leader is the empty name exactly when no member has a
      (non-empty) blood type; otherwise it is a type that some member has. */
  lemma BloodLeaderEmptyIffNoType(members: seq<Member>)
    ensures Leader(BloodTally(members)).0 == "" <==> forall i :: 0 <= i < |members| ==> !Truthy(members[i].bloodType)
    ensures Leader(BloodTally(members)).0 != "" ==> BloodCount(members, Leader(BloodTally(members)).0) > 0
  {
    var tally := BloodTally(members);
    LeaderIsFirstMaximum(tally);
    BloodTallyShape(members);
    if exists i :: 0 <= i < |members| && Truthy(members[i].bloodType) {
      var i :| 0 <= i < |members| && Truthy(members[i].bloodType);
      var t := members[i].bloodType.value;
      assert members[i] in Filter(members, (m: Member) => HasBloodType(m, t));
      BloodTallyContents(members, t);
      GetFound(tally, t);
      var j :| 0 <= j < |tally| && tally[j] == (t, Get(tally, t).value);
      assert Leader(tally).1 > 0;
      var k :| 0 <= k < |tally| && tally[k] == Leader(tally);
      KeyHasMembers(members, k);
    } else {
      BloodTallyEmpty(members);
    }
  }

  // ---------------------------------------------------------------------------
  // The cards
  // ---------------------------------------------------------------------------

  /** `.replace(/([A-Z])/g, " $1")`: a space before every ASCII capital. */
  function SpaceBeforeCapitals(s: string): string {
    if s == [] then []
    else (if IsUpper(s[0]) then [' ', s[0]] else [s[0]]) + SpaceBeforeCapitals(s[1..])
  }

  /** Drops one space in front of each ASCII capital. */
  function DropSpaceBeforeCapitals(s: string): string
    decreases |s|
  {
    if s == [] then []
    else if |s| >= 2 && s[0] == ' ' && IsUpper(s[1]) then [s[1]] + DropSpaceBeforeCapitals(s[2..])
    else [s[0]] + DropSpaceBeforeCapitals(s[1..])
  }

  /** The inserted spaces are the only change: removing one space before each
      capital gives the condition name back. */
  lemma {:induction false} SpaceBeforeCapitalsRoundTrip(s: string)
    ensures DropSpaceBeforeCapitals(SpaceBeforeCapitals(s)) == s
  {
    if s != [] {
      SpaceBeforeCapitalsRoundTrip(s[1..]);
      var rest := SpaceBeforeCapitals(s[1..]);
      if IsUpper(s[0]) {
        assert SpaceBeforeCapitals(s) == [' ', s[0]] + rest;
        assert ([' ', s[0]] + rest)[2..] == rest;
      } else {
        assert SpaceBeforeCapitals(s) == [s[0]] + rest;
        assert ([s[0]] + rest)[1..] == rest;
      }
    }
  }

  /** The LineTerminator characters, which the regular expression `.` does not match. */
  predicate IsLineTerminator(c: char) {
    c == '\n' || c == '\r' || c == '\U{2028}' || c == '\U{2029}'
  }

  /** `.replace(/^./, (str) => str.toUpperCase())`, with ASCII upper-casing. */
  function CapitalizeFirst(s: string): (r: string)
    ensures |r| == |s| && (s != [] ==> r[1..] == s[1..])
    ensures s != [] && !IsLineTerminator(s[0]) ==> r[0] == UpperChar(s[0])
    ensures s != [] && IsLineTerminator(s[0]) ==> r == s
  {
    if s == [] || IsLineTerminator(s[0]) then s else [UpperChar(s[0])] + s[1..]
  }

  /** The label of the most-common-condition card: "None" for an empty name,
      otherwise the camel-case name spelled out as words. */
  function ConditionLabel(c: string): string {
    if c == "" then "None" else CapitalizeFirst(SpaceBeforeCapitals(c))
  }

  /** The label of the most-common-blood-type card. */
  function BloodTypeLabel(t: string): string {
    if t == "" then "Unknown" else t
  }

  datatype Stats = Stats(totalMembers: int, uniqueConditions: int,
                         mostCommonCondition: string, mostCommonBloodType: string)

  /** `calculateStats(members, conditions)`, lines 188-231. */
  method CalculateStats(members: seq<Member>, conditions: seq<string>) returns (stats: Stats)
    ensures stats.totalMembers == |members| && stats.uniqueConditions == |conditions|
    ensures stats.mostCommonCondition == ConditionLabel(Leader(ConditionTally(members, conditions)).0)
    ensures stats.mostCommonBloodType == BloodTypeLabel(Leader(BloodTally(members)).0)
  {
    var conditionCounts := ConditionCounts(members, conditions);
    var mostCommonCondition, _ := MostCommon(conditionCounts);
    var bloodTypeCounts := BloodTypeCounts(members);
    var mostCommonBloodType, _ := MostCommon(bloodTypeCounts);
    stats := Stats(|members|, |conditions|, ConditionLabel(mostCommonCondition),
                   BloodTypeLabel(mostCommonBloodType));
  }
}
