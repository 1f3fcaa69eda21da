/**
 * The two pure helpers of the countdown timer: `parseDuration`, which reads "1h30m", "45s" and
 * the like, and `formatTime`, which splits a number of seconds into hours, minutes and seconds.
 */
module Timer {
  import opened Wrappers

  /** `\d`: an ASCII decimal digit. */
  predicate IsDigit(c: char) { '0' <= c <= '9' }

  predicate AllDigits(s: string) { forall i :: 0 <= i < |s| ==> IsDigit(s[i]) }

  /** The value of a string of decimal digits, as `parseInt` reads it; the empty string is 0. */
  function DigitsValue(d: string): nat
    requires AllDigits(d)
  {
    if d == [] then 0 else 10 * DigitsValue(d[..|d| - 1]) + (d[|d| - 1] as int - '0' as int)
  }

  /** The longest prefix of s made of digits: what the greedy `\d+` tries first. */
  function LeadingDigits(s: string): (d: string)
    ensures d <= s && AllDigits(d) && (|d| < |s| ==> !IsDigit(s[|d|]))
  {
    if s == [] || !IsDigit(s[0]) then [] else [s[0]] + LeadingDigits(s[1..])
  }

  /**
   * The optional group `(\d+u)?` at the start of s: its digits and the rest of s, or the empty
   * string and all of s when the group is absent. A shorter run of digits is always followed
   * by a digit, so backtracking cannot find another match.
   */
  function Group(s: string, unit: char): (string, string) {
    var d := LeadingDigits(s);
    if |d| > 0 && |d| < |s| && s[|d|] == unit then (d, s[|d| + 1..]) else ([], s)
  }

  /** The digits of the hours, minutes and seconds groups of a match; empty where a group is absent. */
  datatype Groups = Groups(hours: string, minutes: string, seconds: string)

  predicate WellFormed(g: Groups) {
    AllDigits(g.hours) && AllDigits(g.minutes) && AllDigits(g.seconds)
  }

  /** How a present group is written: its digits and then its unit letter. */
  function Unit(d: string, unit: char): string {
    if d == [] then [] else d + [unit]
  }

  /** The strings `^(\d+h)?(\d+m)?(\d+s)?$` matches, written from their groups. */
  function Compose(g: Groups): string {
    Unit(g.hours, 'h') + Unit(g.minutes, 'm') + Unit(g.seconds, 's')
  }

  /** `input.match(/^(\d+h)?(\d+m)?(\d+s)?$/)`: the groups, or None (null) when it does not match. */
  function Match(s: string): Option<Groups> {
    var (h, r1) := Group(s, 'h');
    var (m, r2) := Group(r1, 'm');
    var (sec, r3) := Group(r2, 's');
    if r3 == [] then Some(Groups(h, m, sec)) else None
  }

  /** 3600 * hours + 60 * minutes + seconds; an absent group adds nothing. */
  function TotalSeconds(g: Groups): nat
    requires WellFormed(g)
  {
    3600 * DigitsValue(g.hours) + 60 * DigitsValue(g.minutes) + DigitsValue(g.seconds)
  }

  lemma GroupSound(s: string, unit: char)
    ensures AllDigits(Group(s, unit).0)
    ensures Unit(Group(s, unit).0, unit) + Group(s, unit).1 == s
  {
  }

  /** What `Match` returns is a decomposition of its input into well-formed groups. */
  lemma MatchSound(s: string)
    ensures Match(s).Some? ==> WellFormed(Match(s).value) && Compose(Match(s).value) == s
  {
    var (h, r1) := Group(s, 'h');
    var (m, r2) := Group(r1, 'm');
    var (sec, r3) := Group(r2, 's');
    assert Match(s) == if r3 == [] then Some(Groups(h, m, sec)) else None;
    GroupSound(s, 'h');
    GroupSound(r1, 'm');
    GroupSound(r2, 's');
    if r3 == [] {
      calc {
        Compose(Groups(h, m, sec));
        Unit(h, 'h') + Unit(m, 'm') + Unit(sec, 's');
        Unit(h, 'h') + (Unit(m, 'm') + (Unit(sec, 's') + r3));
      }
    }
  }

  lemma {:induction false} LeadingDigitsOfUnit(d: string, u: char, t: string)
    requires AllDigits(d) && !IsDigit(u)
    ensures LeadingDigits(d + [u] + t) == d
  {
    if d != [] {
      assert (d + [u] + t)[1..] == d[1..] + [u] + t;
      LeadingDigitsOfUnit(d[1..], u, t);
      assert [d[0]] + d[1..] == d;
    }
  }

  /** A present group is consumed by the group of its own unit and skipped by any other. */
  lemma GroupOfUnit(d: string, u: char, t: string, v: char)
    requires AllDigits(d) && d != [] && !IsDigit(u)
    ensures Group(d + [u] + t, v) == if u == v then (d, t) else ([], d + [u] + t)
  {
    LeadingDigitsOfUnit(d, u, t);
    var s := d + [u] + t;
    assert s[|d|] == u;
    assert s[|d| + 1..] == t;
  }

  /** A seconds group alone, or nothing: no hours or minutes group, and the seconds group is its digits. */
  lemma TailGroups(sec: string)
    requires AllDigits(sec)
    ensures var tail := Unit(sec, 's');
      Group(tail, 'h') == ([], tail) && Group(tail, 'm') == ([], tail) && Group(tail, 's') == (sec, [])
  {
    if sec != [] {
      GroupOfUnit(sec, 's', [], 'h');
      GroupOfUnit(sec, 's', [], 'm');
      GroupOfUnit(sec, 's', [], 's');
      assert Unit(sec, 's') == sec + ['s'] + [];
    }
  }

  /** Minutes and seconds groups, each optional: no hours group, and the minutes group is its digits. */
  lemma RestGroups(m: string, sec: string)
    requires AllDigits(m) && AllDigits(sec)
    ensures var rest := Unit(m, 'm') + Unit(sec, 's');
      Group(rest, 'h') == ([], rest) && Group(rest, 'm') == (m, Unit(sec, 's'))
  {
    TailGroups(sec);
    var tail := Unit(sec, 's');
    if m == [] {
      assert Unit(m, 'm') + tail == tail;
    } else {
      GroupOfUnit(m, 'm', tail, 'h');
      GroupOfUnit(m, 'm', tail, 'm');
      assert Unit(m, 'm') + tail == m + ['m'] + tail;
    }
  }

  /** Every string written from well-formed groups matches, and gives back exactly those groups. */
  lemma MatchComposed(g: Groups)
    requires WellFormed(g)
    ensures Match(Compose(g)) == Some(g)
  {
    var (h, m, sec) := (g.hours, g.minutes, g.seconds);
    var tail := Unit(sec, 's');
    var rest := Unit(m, 'm') + tail;
    TailGroups(sec);
    RestGroups(m, sec);
    assert Compose(g) == Unit(h, 'h') + rest;
    if h == [] {
      assert Compose(g) == rest;
    } else {
      GroupOfUnit(h, 'h', rest, 'h');
      assert Compose(g) == h + ['h'] + rest;
    }
    assert Group(Compose(g), 'h') == (h, rest);
  }

  /** `parseDuration(input)`: null when the pattern does not match, else the total in seconds. */
  function ParseDuration(input: string): Option<nat> {
    MatchSound(input);
    match Match(input)
    case None => None
    case Some(g) => Some(TotalSeconds(g))
  }

  /**
   * `parseDuration` accepts exactly the strings made of an optional hours group, an optional
   * minutes group and an optional seconds group, in that order, and returns 3600 * h + 60 * m + s;
   * so the empty string gives 0.
   */
  lemma ParseDurationSpec(input: string)
    ensures ParseDuration(input).Some? <==> exists g :: WellFormed(g) && Compose(g) == input
    ensures forall g :: WellFormed(g) && Compose(g) == input ==> ParseDuration(input) == Some(TotalSeconds(g))
    ensures input == [] ==> ParseDuration(input) == Some(0)
  {
    MatchSound(input);
    forall g | WellFormed(g) && Compose(g) == input
      ensures ParseDuration(input) == Some(TotalSeconds(g))
    {
      MatchComposed(g);
    }
    if input == [] {
      assert Compose(Groups([], [], [])) == input;
    }
  }

  /**
   * The decimal numeral of n, as a template literal prints a whole number below 10^21 (from
   * 10^21 on JavaScript switches to exponent notation, which this function does not model).
   */
  function Decimal(n: nat): (r: string)
    ensures r != [] && AllDigits(r) && DigitsValue(r) == n
  {
    var last := [('0' as int + n % 10) as char];
    if n < 10 then last
    else
      var r := Decimal(n / 10) + last;
      assert r[..|r| - 1] == Decimal(n / 10);
      r
  }

  /** The hours, minutes and seconds `formatTime` computes with `Math.floor` and `%`. */
  function Hms(seconds: nat): (hms: (nat, nat, nat))
    ensures 3600 * hms.0 + 60 * hms.1 + hms.2 == seconds
    ensures hms.1 < 60 && hms.2 < 60
  {
    (seconds / 3600, (seconds % 3600) / 60, seconds % 60)
  }

  /** `formatTime(seconds)`: "<h>h <m>m <s>s". */
  function FormatTime(seconds: nat): string {
    var (h, m, s) := Hms(seconds);
    Decimal(h) + "h " + Decimal(m) + "m " + Decimal(s) + "s"
  }

  lemma ComposeHasNoSpace(g: Groups)
    requires WellFormed(g)
    ensures ' ' !in Compose(g)
  {
  }

  /**
   * The two helpers do not round-trip: `formatTime` separates its fields with spaces, which the
   * pattern of `parseDuration` does not allow, so every string it produces parses to null.
   */
  lemma FormatTimeIsNotParsed(seconds: nat)
    ensures ParseDuration(FormatTime(seconds)) == None
  {
    var (h, m, s) := Hms(seconds);
    var text := FormatTime(seconds);
    assert text[|Decimal(h)| + 1] == ' ';
    MatchSound(text);
    if Match(text).Some? {
      ComposeHasNoSpace(Match(text).value);
    }
  }
}
