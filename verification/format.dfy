/** Remaining-time display (src/components/result/utils.ts): a whole number
    of seconds split into days, hours, minutes and seconds and written out
    either in words or as a countdown clock. */
module Format {
  import opened Wrappers
  import opened Text

  /** A duration as days, hours, minutes and seconds. */
  datatype Split = Split(days: nat, hours: nat, minutes: nat, seconds: nat)

  function Seconds(s: Split): nat {
    s.days * 86400 + s.hours * 3600 + s.minutes * 60 + s.seconds
  }

  /** Hours, minutes and seconds each below their carry limit. */
  predicate Normal(s: Split) {
    s.hours < 24 && s.minutes < 60 && s.seconds < 60
  }

  /** The floor divisions and remainders both formatters start from. */
  function SplitSeconds(t: nat): (s: Split)
    ensures Normal(s) && Seconds(s) == t
  {
    var days, dayRest := t / 86400, t % 86400;
    var hours, hourRest := dayRest / 3600, dayRest % 3600;
    DivModUnique(days * 24 + hours, hourRest, t / 3600, t % 3600, 3600);
    var minutes, seconds := hourRest / 60, hourRest % 60;
    DivModUnique(days * 1440 + hours * 60 + minutes, seconds, t / 60, t % 60, 60);
    Split(days, hours, (t % 3600) / 60, t % 60)
  }

  /** A normal split is determined by the seconds it stands for. */
  lemma SplitUnique(s: Split, t: nat)
    requires Normal(s) && Seconds(s) == t
    ensures s == SplitSeconds(t)
  {
    var u := SplitSeconds(t);
    var rs := s.hours * 3600 + s.minutes * 60 + s.seconds;
    var ru := u.hours * 3600 + u.minutes * 60 + u.seconds;
    assert rs < 86400 && ru < 86400;
    DivModUnique(s.days, rs, u.days, ru, 86400);
    var ms := s.minutes * 60 + s.seconds;
    var mu := u.minutes * 60 + u.seconds;
    DivModUnique(s.hours, ms, u.hours, mu, 3600);
    DivModUnique(s.minutes, s.seconds, u.minutes, u.seconds, 60);
  }

  /** q·b + r with 0 <= r < b has a unique quotient and remainder. */
  lemma DivModUnique(q1: nat, r1: nat, q2: nat, r2: nat, b: nat)
    requires 0 <= r1 < b && 0 <= r2 < b
    requires q1 * b + r1 == q2 * b + r2
    ensures q1 == q2 && r1 == r2
  {
    if q1 < q2 {
      MulStep(q1, q2, b);
    } else if q2 < q1 {
      MulStep(q2, q1, b);
    }
  }

  lemma MulStep(lo: nat, hi: nat, b: nat)
    requires lo < hi
    ensures lo * b + b <= hi * b
  {
    var k := hi - lo - 1;
    assert hi * b == lo * b + k * b + b;
  }

  /** `formatDuration`'s list of parts: days, hours and minutes when
      non-zero, and seconds when non-zero and no whole day remains. */
  function DurationParts(s: Split): seq<string> {
    (if s.days > 0 then [NatToString(s.days) + "일"] else [])
    + (if s.hours > 0 then [NatToString(s.hours) + "시간"] else [])
    + (if s.minutes > 0 then [NatToString(s.minutes) + "분"] else [])
    + (if s.days == 0 && s.seconds > 0 then [NatToString(s.seconds) + "초"] else [])
  }

  /** `formatDuration`: "0초" for no time left, otherwise the non-zero parts
      joined by single spaces. */
  function FormatDuration(t: int): (r: string)
    ensures t <= 0 ==> r == "0초"
  {
    if t <= 0 then "0초" else Join(DurationParts(SplitSeconds(t)), " ")
  }

  /** A positive duration never renders as the empty string, except when
      whole days and a seconds remainder are all there is, which is not
      possible: with no day the seconds are shown, with a day the day is. */
  lemma DurationNonEmpty(t: int)
    requires t > 0
    ensures |FormatDuration(t)| > 0
  {
    var s := SplitSeconds(t);
    var parts := DurationParts(s);
    assert s.days > 0 || s.hours > 0 || s.minutes > 0 || s.seconds > 0;
    assert |parts| > 0 && |parts[0]| > 0;
  }

  /** Under a minute the duration is just the seconds. */
  lemma DurationUnderMinute(t: int)
    requires 0 < t < 60
    ensures FormatDuration(t) == NatToString(t) + "초"
  {
    SplitUnique(Split(0, 0, 0, t), t);
  }

  /** Once a whole day remains the seconds are not shown: the text is the
      same as for the duration truncated to whole minutes. */
  lemma DurationDropsSecondsWithDays(t: int)
    requires t >= 86400
    ensures FormatDuration(t) == FormatDuration(t - t % 60)
  {
    TruncatedSplit(t);
    var s := SplitSeconds(t);
    assert DurationParts(Split(s.days, s.hours, s.minutes, 0)) == DurationParts(s);
  }

  /** Truncating to whole minutes keeps days, hours and minutes. */
  lemma TruncatedSplit(t: nat)
    requires t >= 86400
    ensures SplitSeconds(t).days > 0 && t - t % 60 > 0
    ensures SplitSeconds(t - t % 60)
            == Split(SplitSeconds(t).days, SplitSeconds(t).hours, SplitSeconds(t).minutes, 0)
  {
    var s := SplitSeconds(t);
    DaysIff(s);
    assert s.seconds == t % 60;
    SplitUnique(Split(s.days, s.hours, s.minutes, 0), t - t % 60);
  }

  /** A normal split has a whole day exactly when it stands for at least
      86400 seconds. */
  lemma DaysIff(s: Split)
    requires Normal(s)
    ensures s.days > 0 <==> Seconds(s) >= 86400
  {
    if s.days > 0 {
      var k := s.days - 1;
      assert s.days * 86400 == k * 86400 + 86400;
    }
  }

  /** The components a duration text shows: none for no time left; below a
      day every component; from a day on, all but the seconds. */
  function Shown(t: int): Split {
    if t <= 0 then Split(0, 0, 0, 0)
    else
      var s := SplitSeconds(t);
      if s.days > 0 then s.(seconds := 0) else s
  }

  /** What the shown components add up to: the whole duration below a day,
      the duration truncated to whole minutes from a day on. */
  lemma ShownSeconds(t: int)
    requires t > 0
    ensures Seconds(Shown(t)) == if t < 86400 then t else t - t % 60
  {
    DaysIff(SplitSeconds(t));
    if t >= 86400 {
      TruncatedSplit(t);
    }
  }

  /** The units of a duration text, largest first. */
  datatype Unit = Day | Hour | Minute | Second

  function UnitLabel(u: Unit): string {
    match u
    case Day => "일"
    case Hour => "시간"
    case Minute => "분"
    case Second => "초"
  }

  function UnitRank(u: Unit): nat {
    match u
    case Day => 0
    case Hour => 1
    case Minute => 2
    case Second => 3
  }

  /** The component `u` of `s` set to `n`. */
  function WithUnit(s: Split, u: Unit, n: nat): Split {
    match u
    case Day => s.(days := n)
    case Hour => s.(hours := n)
    case Minute => s.(minutes := n)
    case Second => s.(seconds := n)
  }

  /** A positive count written in plain decimal, without leading zeros:
      exactly the digits `toString` writes for it. */
  function ReadCount(digits: string, u: Unit): (r: Option<(nat, Unit)>)
    requires AllDigits(digits)
    ensures r.Some? ==> r.value.0 > 0 && r.value.1 == u
    ensures r.None? <==> |digits| == 0 || digits[0] == '0'
  {
    if |digits| > 0 && digits[0] != '0' then
      ParseCanonical(digits);
      Some((ParseNat(digits), u))
    else None
  }

  /** A count the reader accepts is written exactly as `toString` writes it. */
  lemma CountIsCanonical(digits: string, u: Unit)
    requires AllDigits(digits) && ReadCount(digits, u).Some?
    ensures digits == NatToString(ReadCount(digits, u).value.0)
  {
    ParseCanonical(digits);
  }

  /** One part of a duration text: a positive decimal count directly
      followed by a unit label. */
  function ReadPart(p: string): Option<(nat, Unit)> {
    if |p| >= 3 && p[|p| - 2..] == "시간" && AllDigits(p[..|p| - 2]) then ReadCount(p[..|p| - 2], Hour)
    else if |p| >= 2 && AllDigits(p[..|p| - 1]) then
      var mark := p[|p| - 1];
      if mark == '일' then ReadCount(p[..|p| - 1], Day)
      else if mark == '분' then ReadCount(p[..|p| - 1], Minute)
      else if mark == '초' then ReadCount(p[..|p| - 1], Second)
      else None
    else None
  }

  /** The parts in order, each with a unit smaller than the one before
      (rank `after`); every unit not mentioned is zero. */
  function ReadParts(parts: seq<string>, after: int): Option<Split>
    decreases |parts|
  {
    if |parts| == 0 then Some(Split(0, 0, 0, 0))
    else
      match ReadPart(parts[0])
      case None => None
      case Some(part) =>
        if UnitRank(part.1) <= after then None
        else
          match ReadParts(parts[1..], UnitRank(part.1))
          case None => None
          case Some(rest) => Some(WithUnit(rest, part.1, part.0))
  }

  /** Reading a duration text back into its components: "0초" is no time;
      otherwise parts separated by single spaces, each a positive count
      and a unit, the units strictly from days down to seconds. */
  function ReadDuration(text: string): Option<Split> {
    if text == "0초" then Some(Split(0, 0, 0, 0)) else ReadParts(SplitOn(text, ' '), -1)
  }

  /** Every duration text reads back as exactly the components it shows:
      each unit with its count, none with a zero count, in order from
      days to seconds, the seconds only below a day. */
  lemma DurationReadsBack(t: int)
    ensures ReadDuration(FormatDuration(t)) == Some(Shown(t))
  {
    if t > 0 {
      var s := SplitSeconds(t);
      var parts := DurationParts(s);
      DurationNonEmpty(t);
      assert |parts| >= 1;
      forall i | 0 <= i < |parts| ensures ' ' !in parts[i] {
        PartsHaveNoSpace(s, i);
      }
      SplitJoin(parts, ' ');
      ReadDays(s);
    }
  }

  /** A part of a duration text is digits and a label, never a space. */
  lemma PartsHaveNoSpace(s: Split, i: nat)
    requires i < |DurationParts(s)|
    ensures ' ' !in DurationParts(s)[i]
  {
    var p := DurationParts(s)[i];
    assert p in DurationParts(s);
    TokenHasNoSpace(s.days, Day);
    TokenHasNoSpace(s.hours, Hour);
    TokenHasNoSpace(s.minutes, Minute);
    TokenHasNoSpace(s.seconds, Second);
  }

  lemma TokenHasNoSpace(n: nat, u: Unit)
    ensures ' ' !in NatToString(n) + UnitLabel(u)
  {
    var p := NatToString(n) + UnitLabel(u);
    forall k | 0 <= k < |p| ensures p[k] != ' ' {
      if k < |NatToString(n)| {
        assert IsDigit(NatToString(n)[k]);
      }
    }
  }

  /** A count and a label read back as that count of that unit. */
  lemma ReadToken(n: nat, u: Unit)
    requires n > 0
    ensures ReadPart(NatToString(n) + UnitLabel(u)) == Some((n, u))
  {
    var d := NatToString(n);
    var p := d + UnitLabel(u);
    CountReadsBack(n, u);
    assert IsDigit(d[|d| - 1]);
    match u
    case Hour =>
      assert p[|p| - 2..] == "시간" && p[..|p| - 2] == d;
      assert ReadPart(p) == ReadCount(d, Hour);
    case _ =>
      assert p[|p| - 1] == UnitLabel(u)[0] && p[..|p| - 1] == d;
      assert p[|p| - 2] == d[|d| - 1];
      assert p[|p| - 2..] != "시간";
      assert ReadPart(p) == ReadCount(d, u);
  }

  /** The digits of a positive count read back as that count. */
  lemma CountReadsBack(n: nat, u: Unit)
    requires n > 0
    ensures ReadCount(NatToString(n), u) == Some((n, u))
  {
    NatToStringParses(n);
    var c := ReadCount(NatToString(n), u);
    assert c.Some?;
    CountIsCanonical(NatToString(n), u);
    NatToStringParses(c.value.0);
  }

  /** Reading one more part in front of parts that already read back. */
  lemma ReadCons(n: nat, u: Unit, rest: seq<string>, after: int, x: Split)
    requires n > 0 && after < UnitRank(u)
    requires ReadParts(rest, UnitRank(u)) == Some(x)
    ensures ReadParts([NatToString(n) + UnitLabel(u)] + rest, after) == Some(WithUnit(x, u, n))
  {
    ReadToken(n, u);
    ReadPartsCons(NatToString(n) + UnitLabel(u), rest, after, x);
  }

  /** Reading parts that start with a part of a smaller unit. */
  lemma ReadPartsCons(p: string, rest: seq<string>, after: int, x: Split)
    requires ReadPart(p).Some? && after < UnitRank(ReadPart(p).value.1)
    requires ReadParts(rest, UnitRank(ReadPart(p).value.1)) == Some(x)
    ensures ReadParts([p] + rest, after) == Some(WithUnit(x, ReadPart(p).value.1, ReadPart(p).value.0))
  {
    assert ([p] + rest)[0] == p && ([p] + rest)[1..] == rest;
  }

  /** The seconds part, when there is one, reads back as the shown seconds. */
  lemma ReadSecondsPart(s: Split, after: int)
    requires after < 3
    ensures ReadParts(if s.days == 0 && s.seconds > 0 then [NatToString(s.seconds) + "초"] else [], after)
            == Some(Split(0, 0, 0, if s.days == 0 then s.seconds else 0))
  {
    if s.days == 0 && s.seconds > 0 {
      ReadCons(s.seconds, Second, [], after, Split(0, 0, 0, 0));
      assert [NatToString(s.seconds) + "초"] + [] == [NatToString(s.seconds) + "초"];
    }
  }

  lemma ReadMinutesPart(s: Split, after: int)
    requires after < 2
    ensures ReadParts((if s.minutes > 0 then [NatToString(s.minutes) + "분"] else [])
                      + (if s.days == 0 && s.seconds > 0 then [NatToString(s.seconds) + "초"] else []), after)
            == Some(Split(0, 0, s.minutes, if s.days == 0 then s.seconds else 0))
  {
    var sp := if s.days == 0 && s.seconds > 0 then [NatToString(s.seconds) + "초"] else [];
    if s.minutes > 0 {
      ReadSecondsPart(s, 2);
      ReadCons(s.minutes, Minute, sp, after, Split(0, 0, 0, if s.days == 0 then s.seconds else 0));
    } else {
      ReadSecondsPart(s, after);
      assert [] + sp == sp;
    }
  }

  lemma ReadHoursPart(s: Split, after: int)
    requires after < 1
    ensures ReadParts((if s.hours > 0 then [NatToString(s.hours) + "시간"] else [])
                      + (if s.minutes > 0 then [NatToString(s.minutes) + "분"] else [])
                      + (if s.days == 0 && s.seconds > 0 then [NatToString(s.seconds) + "초"] else []), after)
            == Some(Split(0, s.hours, s.minutes, if s.days == 0 then s.seconds else 0))
  {
    var mp := if s.minutes > 0 then [NatToString(s.minutes) + "분"] else [];
    var sp := if s.days == 0 && s.seconds > 0 then [NatToString(s.seconds) + "초"] else [];
    var rest := mp + sp;
    var x := Split(0, 0, s.minutes, if s.days == 0 then s.seconds else 0);
    if s.hours > 0 {
      var token := NatToString(s.hours) + "시간";
      ReadMinutesPart(s, 1);
      assert ReadParts(rest, UnitRank(Hour)) == Some(x);
      assert [token] + mp + sp == [token] + rest;
      ReadCons(s.hours, Hour, rest, after, x);
      assert WithUnit(x, Hour, s.hours) == Split(0, s.hours, s.minutes, x.seconds);
    } else {
      ReadMinutesPart(s, after);
      assert [] + mp + sp == rest;
    }
  }

  /** All of `formatDuration`'s parts read back as the shown components. */
  lemma ReadDays(s: Split)
    ensures ReadParts(DurationParts(s), -1)
            == Some(if s.days > 0 then s.(seconds := 0) else s)
  {
    var hp := if s.hours > 0 then [NatToString(s.hours) + "시간"] else [];
    var mp := if s.minutes > 0 then [NatToString(s.minutes) + "분"] else [];
    var sp := if s.days == 0 && s.seconds > 0 then [NatToString(s.seconds) + "초"] else [];
    if s.days > 0 {
      ReadHoursPart(s, 0);
      assert DurationParts(s) == [NatToString(s.days) + "일"] + (hp + mp + sp);
      ReadCons(s.days, Day, hp + mp + sp, -1, Split(0, s.hours, s.minutes, 0));
    } else {
      ReadHoursPart(s, -1);
      assert DurationParts(s) == hp + mp + sp;
    }
  }

  /** `formatCountdown`: "00:00:00" for no time left, otherwise HH:MM:SS
      (two digits each), preceded by "N일 " when at least a day remains. */
  function FormatCountdown(t: int): (r: string)
    ensures t <= 0 ==> r == "00:00:00"
    ensures 0 < t < 86400 ==> |r| == 8
  {
    if t <= 0 then "00:00:00"
    else
      var s := SplitSeconds(t);
      var clock := Clock(s.hours, s.minutes, s.seconds);
      if s.days > 0 then NatToString(s.days) + "일 " + clock else clock
  }

  /** HH:MM:SS with each field zero-padded to two digits. */
  function Clock(h: nat, m: nat, s: nat): (r: string)
    requires h < 100 && m < 100 && s < 100
    ensures |r| == 8 && r[2] == ':' && r[5] == ':'
    ensures AllDigits(r[0..2]) && AllDigits(r[3..5]) && AllDigits(r[6..8])
    ensures ParseNat(r[0..2]) == h && ParseNat(r[3..5]) == m && ParseNat(r[6..8]) == s
  {
    ClockFields(PadTwo(h), PadTwo(m), PadTwo(s));
    PadTwo(h) + ":" + PadTwo(m) + ":" + PadTwo(s)
  }

  /** Where the three two-character fields sit in a clock. */
  lemma ClockFields(a: string, b: string, c: string)
    requires |a| == 2 && |b| == 2 && |c| == 2
    ensures var r := a + ":" + b + ":" + c;
            |r| == 8 && r[2] == ':' && r[5] == ':' && r[0..2] == a && r[3..5] == b && r[6..8] == c
  {
  }

  /** The seconds an HH:MM:SS clock stands for. */
  function ClockSeconds(r: string): nat
    requires |r| == 8 && AllDigits(r[0..2]) && AllDigits(r[3..5]) && AllDigits(r[6..8])
  {
    ParseNat(r[0..2]) * 3600 + ParseNat(r[3..5]) * 60 + ParseNat(r[6..8])
  }

  /** Under a day the countdown is a bare clock that reads back as the
      remaining seconds. */
  lemma CountdownRoundTrip(t: int)
    requires 0 < t < 86400
    ensures var r := FormatCountdown(t);
            && |r| == 8 && r[2] == ':' && r[5] == ':'
            && AllDigits(r[0..2]) && AllDigits(r[3..5]) && AllDigits(r[6..8])
            && ParseNat(r[0..2]) < 24 && ParseNat(r[3..5]) < 60 && ParseNat(r[6..8]) < 60
            && ClockSeconds(r) == t
  {
    DaysIff(SplitSeconds(t));
  }

  /** From a day on, the countdown is the whole days, "일 ", and a clock
      of the hours (below 24), minutes and seconds left over; the two read
      back as the remaining seconds. */
  lemma CountdownWithDaysRoundTrip(t: int)
    requires t >= 86400
    ensures exists d: nat, clock: string ::
              && FormatCountdown(t) == NatToString(d) + "일 " + clock
              && d == t / 86400
              && |clock| == 8 && clock[2] == ':' && clock[5] == ':'
              && AllDigits(clock[0..2]) && AllDigits(clock[3..5]) && AllDigits(clock[6..8])
              && ParseNat(clock[0..2]) < 24 && ParseNat(clock[3..5]) < 60 && ParseNat(clock[6..8]) < 60
              && ParseNat(NatToString(d)) * 86400 + ClockSeconds(clock) == t
  {
    var s := SplitSeconds(t);
    DaysIff(s);
    var clock := Clock(s.hours, s.minutes, s.seconds);
    assert FormatCountdown(t) == NatToString(s.days) + "일 " + clock;
    ClockOfSplit(s);
    NatToStringParses(s.days);
    assert ParseNat(NatToString(s.days)) * 86400 + ClockSeconds(clock) == Seconds(s);
  }

  /** The clock of a normal split reads back as its hours, minutes and seconds. */
  lemma ClockOfSplit(s: Split)
    requires Normal(s)
    ensures ClockSeconds(Clock(s.hours, s.minutes, s.seconds)) == s.hours * 3600 + s.minutes * 60 + s.seconds
  {
  }
}
