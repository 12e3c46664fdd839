/** The security health report of server/algorithms/security.ts: a score
    that starts at 100, loses points for four risky habits, regains up to
    ten for two good ones and is clamped to 0..100, with the messages and
    badges that go with it. The local hour of a session's start and the
    current time are parameters. */
module Security {
  import opened Schema

  datatype Badge = Badge(name: string, earned: bool, description: string)

  /** The messages the two reports can give, one constructor per message
      (with its count, where the message starts with one); Text gives each
      its wording, and no two share a wording. */
  datatype Advice =
    | MoreSecurityTasks
    | FewerLateNights
    | FewerInterruptions
    | EncryptSensitive(sensitiveTasks: nat)
    | Excellent
    | NoRecommendations
    | SimplifyDependencies
    | PrioritizeOverdue(overdueTasks: nat)
    | BreakDownHighEnergy

  datatype RecentActivity = RecentActivity(
    securityTasksCompleted: int,
    totalTasksCompleted: int,
    lateNightSessions: int)

  datatype SecurityHealthData = SecurityHealthData(
    currentScore: int,
    recommendations: seq<Advice>,
    recentActivity: RecentActivity,
    badges: seq<Badge>)

  // ---------------------------------------------------------------------------
  // Strings

  /** toLowerCase on the ASCII letters. */
  function LowerChar(c: char): char {
    if 'A' <= c <= 'Z' then (c as int + 32) as char else c
  }

  function ToLower(s: string): (r: string)
    ensures |r| == |s| && forall i :: 0 <= i < |s| ==> r[i] == LowerChar(s[i])
  {
    seq(|s|, i requires 0 <= i < |s| => LowerChar(s[i]))
  }

  /** sub occurs in s at offset i. */
  predicate OccursAt(s: string, sub: string, i: int) {
    0 <= i && i + |sub| <= |s| && s[i..i + |sub|] == sub
  }

  /** String.prototype.includes: sub occurs at some offset of s. */
  function Contains(s: string, sub: string): (r: bool)
    ensures r <==> exists i :: OccursAt(s, sub, i)
    decreases |s|
  {
    if |sub| > |s| then
      assert forall i :: !OccursAt(s, sub, i);
      false
    else if s[..|sub|] == sub then
      assert OccursAt(s, sub, 0);
      true
    else
      var r := Contains(s[1..], sub);
      assert r ==> exists i :: OccursAt(s, sub, i) by {
        if r {
          var i :| OccursAt(s[1..], sub, i);
          assert s[i + 1..i + 1 + |sub|] == s[1..][i..i + |sub|];
          assert OccursAt(s, sub, i + 1);
        }
      }
      assert (exists i :: OccursAt(s, sub, i)) ==> r by {
        if exists i :: OccursAt(s, sub, i) {
          var i :| OccursAt(s, sub, i);
          assert i != 0;
          assert s[1..][i - 1..i - 1 + |sub|] == s[i..i + |sub|];
          assert OccursAt(s[1..], sub, i - 1);
        }
      }
      r
  }

  /** The lower-cased text contains one of the keywords (Array.prototype.some). */
  predicate MentionsAny(text: string, keywords: seq<string>) {
    exists k :: k in keywords && Contains(ToLower(text), k)
  }

  function DigitChar(d: int): char
    requires 0 <= d < 10
  {
    ('0' as int + d) as char
  }

  /** A number in a template string: its decimal digits. */
  function NatToString(n: nat): (r: string)
    ensures |r| > 0 && forall i :: 0 <= i < |r| ==> '0' <= r[i] <= '9'
    ensures n > 0 ==> r[0] != '0'
  {
    if n < 10 then [DigitChar(n)] else NatToString(n / 10) + [DigitChar(n % 10)]
  }

  /** The value of a string of decimal digits. */
  function DigitsValue(s: string): nat
    requires forall i :: 0 <= i < |s| ==> '0' <= s[i] <= '9'
  {
    if |s| == 0 then 0 else 10 * DigitsValue(s[..|s| - 1]) + (s[|s| - 1] as int - '0' as int)
  }

  /** Reading the digits back gives the number: the count a message carries
      is recoverable from it. */
  lemma {:induction false} NatToStringRoundTrip(n: nat)
    ensures DigitsValue(NatToString(n)) == n
  {
    if n >= 10 {
      NatToStringRoundTrip(n / 10);
      var s := NatToString(n);
      assert s[..|s| - 1] == NatToString(n / 10);
    }
  }

  predicate IsDigit(c: char) {
    '0' <= c <= '9'
  }

  /** How many digits a string starts with. */
  function DigitRunLength(w: string): (k: nat)
    ensures k <= |w| && forall i :: 0 <= i < k ==> IsDigit(w[i])
  {
    if |w| == 0 || !IsDigit(w[0]) then 0 else 1 + DigitRunLength(w[1..])
  }

  /** Reading back a number written at the head of a string, and the text
      after it. */
  function LeadingNumber(w: string): nat {
    DigitsValue(w[..DigitRunLength(w)])
  }

  function AfterNumber(w: string): string {
    w[DigitRunLength(w)..]
  }

  lemma {:induction false} DigitRun(x: string, s: string)
    requires forall i :: 0 <= i < |x| ==> IsDigit(x[i])
    requires |s| > 0 && !IsDigit(s[0])
    ensures DigitRunLength(x + s) == |x|
  {
    if |x| > 0 {
      assert (x + s)[1..] == x[1..] + s;
      DigitRun(x[1..], s);
    } else {
      assert x + s == s;
    }
  }

  /** A number written out and followed by text that does not start with a
      digit can be read back, and so can the text. */
  lemma NumberPrefix(n: nat, s: string)
    requires |s| > 0 && !IsDigit(s[0])
    ensures LeadingNumber(NatToString(n) + s) == n
    ensures AfterNumber(NatToString(n) + s) == s
  {
    var x := NatToString(n);
    DigitRun(x, s);
    assert (x + s)[..|x|] == x;
    assert (x + s)[|x|..] == s;
    NatToStringRoundTrip(n);
  }

  // ---------------------------------------------------------------------------
  // Counting

  /** filter(p).length. */
  function Count<T>(s: seq<T>, p: T -> bool): (r: nat)
    ensures r <= |s|
    ensures r > 0 <==> exists i :: 0 <= i < |s| && p(s[i])
  {
    if |s| == 0 then 0
    else
      var c := Count(s[1..], p);
      assert (exists i :: 0 <= i < |s[1..]| && p(s[1..][i])) ==> exists i :: 0 <= i < |s| && p(s[i]) by {
        if exists i :: 0 <= i < |s[1..]| && p(s[1..][i]) {
          var i :| 0 <= i < |s[1..]| && p(s[1..][i]);
          assert s[i + 1] == s[1..][i];
        }
      }
      assert (exists i :: 0 <= i < |s| && p(s[i])) && !p(s[0]) ==> exists i :: 0 <= i < |s[1..]| && p(s[1..][i]) by {
        if (exists i :: 0 <= i < |s| && p(s[i])) && !p(s[0]) {
          var i :| 0 <= i < |s| && p(s[i]);
          assert s[1..][i - 1] == s[i];
        }
      }
      (if p(s[0]) then 1 else 0) + c
  }

  /** A filter by a stronger predicate keeps fewer elements. */
  lemma {:induction false} CountMono<T>(s: seq<T>, p: T -> bool, q: T -> bool)
    requires forall x :: p(x) ==> q(x)
    ensures Count(s, p) <= Count(s, q)
    decreases |s|
  {
    if |s| > 0 {
      CountMono(s[1..], p, q);
    }
  }

  // ---------------------------------------------------------------------------
  // The habits the score looks at

  const SecurityKeywords: seq<string> := ["security", "encrypt", "auth", "secure", "vulnerability", "audit"]
  const SensitivePatterns: seq<string> := ["password", "api key", "secret", "token", "credential"]

  predicate IsSecurityTask(t: Task) {
    MentionsAny(t.title, SecurityKeywords)
  }

  predicate IsCompletedSecurityTask(t: Task) {
    IsSecurityTask(t) && t.completed
  }

  predicate IsCompleted(t: Task) {
    t.completed
  }

  /** Notes that are present and mention a sensitive pattern; absent notes
      make the optional chain undefined, which counts as false. */
  predicate HasSensitiveNotes(t: Task) {
    t.notes.Some? && MentionsAny(t.notes.value, SensitivePatterns)
  }

  /** After 11 PM or before 6 AM. */
  predicate IsLateNightHour(hour: int) {
    hour >= 23 || hour < 6
  }

  /** The sessions whose local start hour is late at night. */
  function CountLateNight(sessions: seq<FocusSession>, localHour: int -> int): (r: nat)
    ensures r <= |sessions|
    ensures r > 0 <==> exists i :: 0 <= i < |sessions| && IsLateNightHour(localHour(sessions[i].startedAt))
  {
    if |sessions| == 0 then 0
    else
      var c := CountLateNight(sessions[1..], localHour);
      assert c > 0 ==> exists i :: 0 <= i < |sessions| && IsLateNightHour(localHour(sessions[i].startedAt)) by {
        if c > 0 {
          var i :| 0 <= i < |sessions[1..]| && IsLateNightHour(localHour(sessions[1..][i].startedAt));
          assert sessions[i + 1] == sessions[1..][i];
        }
      }
      (if IsLateNightHour(localHour(sessions[0].startedAt)) then 1 else 0) + c
  }

  predicate IsUninterrupted(s: FocusSession) {
    s.interruptions == 0
  }

  predicate AnyInterrupted(sessions: seq<FocusSession>) {
    exists i :: 0 <= i < |sessions| && sessions[i].interruptions > 3
  }

  /** What the report looks at in the tasks and the sessions. */
  datatype Habits = Habits(
    securityTasks: nat,
    completedSecurityTasks: nat,
    lateNightSessions: nat,
    anyInterrupted: bool,
    sensitiveTasks: nat,
    sessionCount: nat)

  function Observe(tasks: seq<Task>, sessions: seq<FocusSession>, localHour: int -> int): (h: Habits)
    ensures h.completedSecurityTasks <= h.securityTasks
  {
    CountMono(tasks, IsCompletedSecurityTask, IsSecurityTask);
    Habits(Count(tasks, IsSecurityTask), Count(tasks, IsCompletedSecurityTask),
           CountLateNight(sessions, localHour), AnyInterrupted(sessions),
           Count(tasks, HasSensitiveNotes), |sessions|)
  }

  /** completed / total < 0.5 with total > 0, by cross-multiplication; with
      no security task the ratio is 1. */
  predicate LowSecurityRatio(h: Habits) {
    h.securityTasks > 0 && 2 * h.completedSecurityTasks < h.securityTasks
  }

  // ---------------------------------------------------------------------------
  // The messages

  /** Each message's wording. */
  function Text(a: Advice): string {
    match a
    case MoreSecurityTasks => MoreSecurityTasksText
    case FewerLateNights => FewerLateNightsText
    case FewerInterruptions => FewerInterruptionsText
    case EncryptSensitive(n) => NatToString(n) + SensitiveSuffix
    case Excellent => ExcellentText
    case NoRecommendations => NoRecommendationsText
    case SimplifyDependencies => SimplifyDependenciesText
    case PrioritizeOverdue(n) => NatToString(n) + OverdueSuffix
    case BreakDownHighEnergy => BreakDownHighEnergyText
  }

  // The longer wordings are written in two pieces so that the prover can
  // read their first characters.
  const MoreSecurityTasksText := "Complete more security-related tasks" + " to improve awareness"
  const FewerLateNightsText := "Reduce late-night work sessions" + " to maintain security focus"
  const FewerInterruptionsText := "Minimize interruptions during focus" + " sessions for better security practices"
  const SensitiveSuffix := " task(s) contain potentially" + " sensitive data - enable encryption"
  const ExcellentText := "Excellent security hygiene - keep it up!"
  const NoRecommendationsText := "No recommendations - you're doing great!"
  const SimplifyDependenciesText := "Simplify task dependencies" + " to reduce workflow complexity"
  const OverdueSuffix := " high-value task(s) are overdue" + " - prioritize completion"
  const BreakDownHighEnergyText := "Many tasks require high energy" + " - consider breaking them down"

  /** The first character and the length of a message without a count. */
  function Lead(a: Advice): (char, nat)
    requires !Counted(a)
  {
    match a
    case MoreSecurityTasks => ('C', 57)
    case FewerLateNights => ('R', 58)
    case FewerInterruptions => ('M', 74)
    case Excellent => ('E', 40)
    case NoRecommendations => ('N', 40)
    case SimplifyDependencies => ('S', 56)
    case BreakDownHighEnergy => ('M', 60)
  }

  lemma LeadOfText(a: Advice)
    requires !Counted(a)
    ensures |Text(a)| > 0 && (Text(a)[0], |Text(a)|) == Lead(a)
  {
  }

  predicate Counted(a: Advice) {
    a.EncryptSensitive? || a.PrioritizeOverdue?
  }

  /** The two messages that start with a count differ when their counts or
      their kinds do. */
  lemma CountedTextsDiffer(a: Advice, b: Advice)
    requires Counted(a) && Counted(b) && a != b
    ensures Text(a) != Text(b)
  {
    assert SensitiveSuffix[1] == 't' && OverdueSuffix[1] == 'h';
    var n := if a.EncryptSensitive? then a.sensitiveTasks else a.overdueTasks;
    var m := if b.EncryptSensitive? then b.sensitiveTasks else b.overdueTasks;
    var s := if a.EncryptSensitive? then SensitiveSuffix else OverdueSuffix;
    var t := if b.EncryptSensitive? then SensitiveSuffix else OverdueSuffix;
    NumberPrefix(n, s);
    NumberPrefix(m, t);
    assert n != m || s != t;
  }

  /** Different messages have different wordings, so a list of messages
      says no more and no less than the list of their texts. */
  lemma TextInjective(a: Advice, b: Advice)
    requires a != b
    ensures Text(a) != Text(b)
  {
    if Counted(a) && Counted(b) {
      CountedTextsDiffer(a, b);
    } else if Counted(a) {
      LeadOfText(b);
      assert IsDigit(Text(a)[0]);
    } else if Counted(b) {
      LeadOfText(a);
      assert IsDigit(Text(b)[0]);
    } else {
      LeadOfText(a);
      LeadOfText(b);
    }
  }

  function Min(a: int, b: int): int { if a <= b then a else b }
  function Max(a: int, b: int): int { if a >= b then a else b }

  function Flag(b: bool): int { if b then 1 else 0 }

  /** The points the four habits cost: 15, 10, 5 and 20. */
  function Deductions(h: Habits): (d: int)
    ensures 0 <= d <= 50
    ensures d == 0 <==> !LowSecurityRatio(h) && h.lateNightSessions <= 2 && !h.anyInterrupted && h.sensitiveTasks == 0
  {
    15 * Flag(LowSecurityRatio(h)) + 10 * Flag(h.lateNightSessions > 2)
    + 5 * Flag(h.anyInterrupted) + 20 * Flag(h.sensitiveTasks > 0)
  }

  /** How many of the two five-point bonuses apply. */
  function Bonuses(h: Habits): (b: int)
    ensures 0 <= b <= 2
    ensures b == 2 <==> h.completedSecurityTasks >= 5 && h.lateNightSessions == 0 && h.sessionCount > 0
  {
    Flag(h.completedSecurityTasks >= 5) + Flag(h.lateNightSessions == 0 && h.sessionCount > 0)
  }

  /** Whatever the habits, the score lies in 50..100, and it is 100 when no
      habit costs points. */
  lemma ScoreRange(d: int, b: int)
    requires 0 <= d <= 50 && 0 <= b <= 2
    ensures 50 <= Min(100, 100 - d + 5 * b) <= 100
    ensures d == 0 ==> Min(100, 100 - d + 5 * b) == 100
    ensures Min(100, 100 - d + 5 * b) < 90 ==> d > 0
  {
  }

  function Opt(b: bool, m: Advice): (r: seq<Advice>)
    ensures forall x :: x in r <==> b && x == m
  {
    if b then [m] else []
  }

  /** The messages the four deductions push, in the order they are checked:
      each is there exactly when its deduction applies, and there is one
      per deduction. */
  function DeductionMessages(h: Habits): (r: seq<Advice>)
    ensures |r| <= 4 && (|r| == 0 <==> Deductions(h) == 0)
    ensures MoreSecurityTasks in r <==> LowSecurityRatio(h)
    ensures FewerLateNights in r <==> h.lateNightSessions > 2
    ensures FewerInterruptions in r <==> h.anyInterrupted
    ensures EncryptSensitive(h.sensitiveTasks) in r <==> h.sensitiveTasks > 0
    ensures forall x :: x in r ==> x != Excellent && x != NoRecommendations
  {
    Opt(LowSecurityRatio(h), MoreSecurityTasks)
    + Opt(h.lateNightSessions > 2, FewerLateNights)
    + Opt(h.anyInterrupted, FewerInterruptions)
    + Opt(h.sensitiveTasks > 0, EncryptSensitive(h.sensitiveTasks))
  }

  // ---------------------------------------------------------------------------
  // calculateSecurityHealth

  const NoInterruptionsBadge := "No Interruptions"
  const NoInterruptionsDescription := "Completed 5 focus sessions without interruption"
  const EncryptionMasterBadge := "Encryption Master"
  const EncryptionMasterDescription := "Enabled encryption for all sensitive data"
  const SecurityConsciousBadge := "Security Conscious"
  const SecurityConsciousDescription := "Completed 10 security-related tasks"
  const ConsistentWorkerBadge := "Consistent Worker"
  const ConsistentWorkerDescription := "No late-night work sessions this week"

  /** The four badges, in their fixed order, from the counts they are
      judged on. */
  function Badges(uninterruptedSessions: nat, sensitiveTasks: nat, taskCount: nat,
                  completedSecurityTasks: nat, lateNightSessions: nat, sessionCount: nat): (r: seq<Badge>)
    ensures |r| == 4
    ensures r[0].name == NoInterruptionsBadge && r[1].name == EncryptionMasterBadge
    ensures r[2].name == SecurityConsciousBadge && r[3].name == ConsistentWorkerBadge
    ensures r[0].earned <==> uninterruptedSessions >= 5
    ensures r[1].earned <==> sensitiveTasks == 0 && taskCount > 0
    ensures r[2].earned <==> completedSecurityTasks >= 10
    ensures r[3].earned <==> lateNightSessions == 0 && sessionCount > 0
  {
    [
      Badge(NoInterruptionsBadge, uninterruptedSessions >= 5,
            NoInterruptionsDescription),
      Badge(EncryptionMasterBadge, sensitiveTasks == 0 && taskCount > 0,
            EncryptionMasterDescription),
      Badge(SecurityConsciousBadge, completedSecurityTasks >= 10,
            SecurityConsciousDescription),
      Badge(ConsistentWorkerBadge, lateNightSessions == 0 && sessionCount > 0,
            ConsistentWorkerDescription)
    ]
  }

  /** The deduction half of calculateSecurityHealth: each risky habit takes
      its points off 100 and pushes its message. */
  method ApplyDeductions(tasks: seq<Task>, sessions: seq<FocusSession>, localHour: int -> int)
      returns (score: int, recommendations: seq<Advice>)
    ensures score == 100 - Deductions(Observe(tasks, sessions, localHour))
    ensures recommendations == DeductionMessages(Observe(tasks, sessions, localHour))
  {
    ghost var h := Observe(tasks, sessions, localHour);
    score := 100;
    recommendations := [];
    var completedSecurityTasks := Count(tasks, IsCompletedSecurityTask);
    var totalSecurityTasks := Count(tasks, IsSecurityTask);
    var lateNightSessions := CountLateNight(sessions, localHour);
    if totalSecurityTasks > 0 && 2 * completedSecurityTasks < totalSecurityTasks {
      score := score - 15;
      recommendations := recommendations + [MoreSecurityTasks];
    }
    ghost var low := Opt(LowSecurityRatio(h), MoreSecurityTasks);
    assert recommendations == low;
    if lateNightSessions > 2 {
      score := score - 10;
      recommendations := recommendations + [FewerLateNights];
    }
    ghost var late := Opt(lateNightSessions > 2, FewerLateNights);
    assert recommendations == low + late;
    if AnyInterrupted(sessions) {
      score := score - 5;
      recommendations := recommendations + [FewerInterruptions];
    }
    assert recommendations == low + late + Opt(AnyInterrupted(sessions), FewerInterruptions);
    var sensitiveCount := Count(tasks, HasSensitiveNotes);
    if sensitiveCount > 0 {
      score := score - 20;
      recommendations := recommendations + [EncryptSensitive(sensitiveCount)];
    }
  }

  /** The bonus half of calculateSecurityHealth: five points, capped at 100,
      for five completed security tasks and again for a week of sessions
      with none late at night, then the clamp to 0..100. */
  method ApplyBonuses(tasks: seq<Task>, sessions: seq<FocusSession>, localHour: int -> int, score: int)
      returns (s: int)
    ensures s == Max(0, Min(100, score + 5 * Bonuses(Observe(tasks, sessions, localHour))))
  {
    s := score;
    if Count(tasks, IsCompletedSecurityTask) >= 5 {
      s := Min(100, s + 5);
    }
    if CountLateNight(sessions, localHour) == 0 && |sessions| > 0 {
      s := Min(100, s + 5);
    }
    s := Max(0, Min(100, s));
  }

  /** calculateSecurityHealth. The score is 100 less the deductions plus five
      per bonus, capped at 100; a score of 90 or more puts the excellence
      message first. Because a score below 90 needs some deduction, the list
      is never empty before the fallback, and the fallback message never
      appears. */
  method CalculateSecurityHealth(tasks: seq<Task>, sessions: seq<FocusSession>, localHour: int -> int)
      returns (r: SecurityHealthData)
    ensures var h := Observe(tasks, sessions, localHour);
      && r.currentScore == Min(100, 100 - Deductions(h) + 5 * Bonuses(h))
      && r.recommendations == Opt(r.currentScore >= 90, Excellent) + DeductionMessages(h)
      && r.badges == Badges(Count(sessions, IsUninterrupted), h.sensitiveTasks, |tasks|,
                            h.completedSecurityTasks, h.lateNightSessions, |sessions|)
    ensures 50 <= r.currentScore <= 100
    ensures |r.recommendations| > 0 && NoRecommendations !in r.recommendations
    ensures r.currentScore >= 90 <==> r.recommendations[0] == Excellent
    ensures r.recentActivity.securityTasksCompleted == Count(tasks, IsCompletedSecurityTask)
    ensures r.recentActivity.totalTasksCompleted == Count(tasks, IsCompleted)
    ensures r.recentActivity.securityTasksCompleted <= r.recentActivity.totalTasksCompleted
    ensures r.recentActivity.lateNightSessions == CountLateNight(sessions, localHour)
  {
    ghost var h := Observe(tasks, sessions, localHour);
    assert h.completedSecurityTasks == Count(tasks, IsCompletedSecurityTask);
    assert h.lateNightSessions == CountLateNight(sessions, localHour);
    assert h.sensitiveTasks == Count(tasks, HasSensitiveNotes);
    var score, recommendations := ApplyDeductions(tasks, sessions, localHour);
    score := ApplyBonuses(tasks, sessions, localHour, score);
    ScoreRange(Deductions(h), Bonuses(h));

    ghost var pushed := recommendations;
    if score >= 90 {
      recommendations := [Excellent] + recommendations;
    }
    assert recommendations == Opt(score >= 90, Excellent) + pushed;
    assert score < 90 ==> recommendations[0] in pushed;

    var completedSecurityTasks := Count(tasks, IsCompletedSecurityTask);
    var totalCompleted := Count(tasks, IsCompleted);
    CountMono(tasks, IsCompletedSecurityTask, IsCompleted);
    r := SecurityHealthData(
      score,
      if |recommendations| > 0 then recommendations else [NoRecommendations],
      RecentActivity(completedSecurityTasks, totalCompleted, CountLateNight(sessions, localHour)),
      Badges(Count(sessions, IsUninterrupted), Count(tasks, HasSensitiveNotes), |tasks|,
             completedSecurityTasks, CountLateNight(sessions, localHour), |sessions|));
  }

  // ---------------------------------------------------------------------------
  // getSecurityRecommendations

  predicate HasComplexDependencies(t: Task) {
    |t.dependsOn| > 3
  }

  predicate IsHighEnergy(t: Task) {
    t.energyCost >= 4
  }

  /** Incomplete, worth 80 or more, with a due date before now. */
  predicate IsOverdueHighValue(t: Task, now: int) {
    !t.completed && t.value >= 80 && t.dueDate.Some? && t.dueDate.value < now
  }

  function CountOverdueHighValue(tasks: seq<Task>, now: int): (r: nat)
    ensures r <= |tasks|
    ensures r > 0 <==> exists i :: 0 <= i < |tasks| && IsOverdueHighValue(tasks[i], now)
  {
    if |tasks| == 0 then 0
    else
      var c := CountOverdueHighValue(tasks[1..], now);
      assert c > 0 ==> exists i :: 0 <= i < |tasks| && IsOverdueHighValue(tasks[i], now) by {
        if c > 0 {
          var i :| 0 <= i < |tasks[1..]| && IsOverdueHighValue(tasks[1..][i], now);
          assert tasks[i + 1] == tasks[1..][i];
        }
      }
      (if IsOverdueHighValue(tasks[0], now) then 1 else 0) + c
  }

  /** getSecurityRecommendations: up to three messages, each present exactly
      when its rule fires, in the order the rules are checked. The
      high-energy share is compared with one half by cross-multiplication. */
  method GetSecurityRecommendations(tasks: seq<Task>, now: int) returns (r: seq<Advice>)
    ensures |r| <= 3
    ensures SimplifyDependencies in r <==> exists i :: 0 <= i < |tasks| && HasComplexDependencies(tasks[i])
    ensures var n := CountOverdueHighValue(tasks, now);
            PrioritizeOverdue(n) in r <==> n > 0
    ensures BreakDownHighEnergy in r <==> 2 * Count(tasks, IsHighEnergy) > |tasks|
    ensures |r| == Flag(Count(tasks, HasComplexDependencies) > 0) + Flag(CountOverdueHighValue(tasks, now) > 0)
                   + Flag(2 * Count(tasks, IsHighEnergy) > |tasks|)
    ensures |r| > 0 && SimplifyDependencies in r ==> r[0] == SimplifyDependencies
    ensures |r| > 0 && BreakDownHighEnergy in r ==> r[|r| - 1] == BreakDownHighEnergy
  {
    r := [];
    if Count(tasks, HasComplexDependencies) > 0 {
      r := r + [SimplifyDependencies];
    }
    var overdueHighValue := CountOverdueHighValue(tasks, now);
    if overdueHighValue > 0 {
      r := r + [PrioritizeOverdue(overdueHighValue)];
    }
    if 2 * Count(tasks, IsHighEnergy) > |tasks| {
      r := r + [BreakDownHighEnergy];
    }
  }
}
