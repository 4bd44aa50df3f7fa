/** The text helpers of src/output.rs: the time display of the HTML table,
    the escaping of player names, the profile link of a player, and the
    whitespace minifier run over the finished page. */
module Output {
  import opened Bytes
  import opened Text
  import opened Format

  // ---------------------------------------------------------------- time

  /** Rust's `/` on integers: the quotient truncated toward zero. */
  function Quot(a: int, b: int): (q: int)
    requires b > 0
    ensures a >= 0 ==> b * q <= a < b * q + b
    ensures a < 0 ==> b * q - b < a <= b * q
  {
    if a >= 0 then a / b else -((-a) / b)
  }

  /** Rust's `%` on integers: the remainder takes the sign of the dividend. */
  function Rem(a: int, b: int): (r: int)
    requires b > 0
    ensures a == b * Quot(a, b) + r
    ensures a >= 0 ==> 0 <= r < b
    ensures a < 0 ==> -b < r <= 0
  {
    if a >= 0 then a % b else -((-a) % b)
  }

  /** A number of seconds split the way `format_time` splits it. */
  datatype TimeParts = TimeParts(days: int, hours: int, minutes: int, seconds: int)

  /** Quotient and remainder by b are the only q, r with a == b * q + r and 0 <= r < b. */
  lemma DivModUnique(a: int, b: int, q: int, r: int)
    requires b > 0 && 0 <= r < b && a == b * q + r
    ensures a / b == q && a % b == r
  {
    var q0, r0 := a / b, a % b;
    assert b * (q0 - q) == r - r0;
    MulAwayFromZero(b, q0 - q);
  }

  lemma MulAwayFromZero(b: int, d: int)
    requires b > 0
    ensures d >= 1 ==> b * d >= b
    ensures d <= -1 ==> b * d <= -b
  {
  }

  /** The split of a non-negative number of seconds. */
  lemma SplitNonNegative(a: int)
    requires a >= 0
    ensures var hours := (a % 86400) / 3600;
      var minutes := (a % 3600) / 60;
      (a / 86400) * 86400 + hours * 3600 + minutes * 60 + a % 60 == a
      && 0 <= hours < 24 && 0 <= minutes < 60
  {
    var d, r := a / 86400, a % 86400;
    var h, r2 := r / 3600, r % 3600;
    var m, sec := r2 / 60, r2 % 60;
    assert a == 86400 * d + r;
    assert r == 3600 * h + r2;
    assert r2 == 60 * m + sec;
    assert h < 24;
    DivModUnique(a, 3600, 24 * d + h, r2);
    DivModUnique(a, 60, 1440 * d + 60 * h + m, sec);
  }

  /** Truncating division and remainder are odd in the dividend. */
  lemma QuotRemOdd(a: int, b: int)
    requires a >= 0 && b > 0
    ensures Quot(-a, b) == -(a / b) && Rem(-a, b) == -(a % b)
  {
    if a == 0 {
      assert -a == 0;
    } else {
      assert -a < 0 && -(-a) == a;
    }
  }

  /** The four numbers of a negative time are those of its absolute value, negated. */
  lemma SplitNegative(s: int)
    requires s < 0
    ensures var a := -s;
      Quot(s, 86400) == -(a / 86400) && Rem(s, 60) == -(a % 60)
      && Quot(Rem(s, 86400), 3600) == -((a % 86400) / 3600)
      && Quot(Rem(s, 3600), 60) == -((a % 3600) / 60)
  {
    var a := -s;
    QuotRemOdd(a, 86400);
    QuotRemOdd(a, 3600);
    QuotRemOdd(a, 60);
    QuotRemOdd(a % 86400, 3600);
    QuotRemOdd(a % 3600, 60);
  }

  /** t adds up to s seconds, with each unit below the next one's size and
      every number of the sign of s. */
  predicate SplitsInto(s: int, t: TimeParts)
  {
    t.days * 86400 + t.hours * 3600 + t.minutes * 60 + t.seconds == s
    && -24 < t.hours < 24 && -60 < t.minutes < 60 && -60 < t.seconds < 60
    && (s >= 0 ==> t.days >= 0 && t.hours >= 0 && t.minutes >= 0 && t.seconds >= 0)
    && (s <= 0 ==> t.days <= 0 && t.hours <= 0 && t.minutes <= 0 && t.seconds <= 0)
  }

  lemma SplitsNegated(a: int, u: TimeParts)
    requires SplitsInto(a, u)
    ensures SplitsInto(-a, TimeParts(-u.days, -u.hours, -u.minutes, -u.seconds))
  {
  }

  lemma SplitTimeSplits(s: int)
    ensures SplitsInto(s, TimeParts(Quot(s, 86400), Quot(Rem(s, 86400), 3600), Quot(Rem(s, 3600), 60), Rem(s, 60)))
  {
    if s < 0 {
      SplitsNegative(s);
    } else {
      SplitsNonNegative(s);
    }
  }

  lemma SplitsNonNegative(s: int)
    requires s >= 0
    ensures SplitsInto(s, TimeParts(Quot(s, 86400), Quot(Rem(s, 86400), 3600), Quot(Rem(s, 3600), 60), Rem(s, 60)))
  {
    assert Quot(s, 86400) == s / 86400 && Rem(s, 60) == s % 60;
    assert Quot(Rem(s, 86400), 3600) == (s % 86400) / 3600;
    assert Quot(Rem(s, 3600), 60) == (s % 3600) / 60;
    SplitNonNegative(s);
  }

  lemma SplitsNegative(s: int)
    requires s < 0
    ensures SplitsInto(s, TimeParts(Quot(s, 86400), Quot(Rem(s, 86400), 3600), Quot(Rem(s, 3600), 60), Rem(s, 60)))
  {
    var a := -s;
    var u := TimeParts(a / 86400, (a % 86400) / 3600, (a % 3600) / 60, a % 60);
    assert SplitsInto(a, u) by {
      SplitNonNegative(a);
    }
    SplitNegative(s);
    SplitsNegated(a, u);
  }

  /** `format_time`'s four numbers for s seconds: days, hours of the day,
      minutes of the hour, seconds of the minute. */
  function SplitTime(s: int): (t: TimeParts)
    ensures t.days * 86400 + t.hours * 3600 + t.minutes * 60 + t.seconds == s
    ensures -24 < t.hours < 24 && -60 < t.minutes < 60 && -60 < t.seconds < 60
    ensures s >= 0 ==> t.days >= 0 && t.hours >= 0 && t.minutes >= 0 && t.seconds >= 0
    ensures s <= 0 ==> t.days <= 0 && t.hours <= 0 && t.minutes <= 0 && t.seconds <= 0
  {
    SplitTimeSplits(s);
    TimeParts(Quot(s, 86400), Quot(Rem(s, 86400), 3600), Quot(Rem(s, 3600), 60), Rem(s, 60))
  }

  /** `format_time`: the two largest units that are not zero, or the seconds alone. */
  function FormatTime(s: i32): (r: seq<char>)
    ensures r != []
    ensures r[|r| - 1] == 'h' <==> s >= 86400
    ensures r[|r| - 1] == 'm' <==> 3600 <= s < 86400
    ensures r[|r| - 1] == 's' <==> s < 3600
  {
    var t := SplitTime(s as int);
    if t.days > 0 then Decimal(t.days) + "d " + Decimal(t.hours) + "h"
    else if t.hours > 0 then Decimal(t.hours) + "h " + Decimal(t.minutes) + "m"
    else if t.minutes > 0 then Decimal(t.minutes) + "m " + Decimal(t.seconds) + "s"
    else Decimal(t.seconds) + "s"
  }

  /** The hours of the day and the minutes of the hour, through whole hours and minutes. */
  lemma UnitsOfDay(n: int)
    requires n >= 0
    ensures (n % 86400) / 3600 == n / 3600 % 24
    ensures (n % 3600) / 60 == n / 60 % 60
  {
    var d, r := n / 86400, n % 86400;
    var h, r2 := r / 3600, r % 3600;
    DivModUnique(n, 3600, 24 * d + h, r2);
    DivModUnique(24 * d + h, 24, d, h);
    var h2, r3 := n / 3600, n % 3600;
    var m, sec := r3 / 60, r3 % 60;
    DivModUnique(n, 60, 60 * h2 + m, sec);
    DivModUnique(60 * h2 + m, 60, h2, m);
  }

  /** The display of a non-negative time, case by case on its size: days and
      hours from one day on, hours and minutes from one hour on, minutes and
      seconds from one minute on, else the seconds. */
  lemma FormatTimeOfSeconds(s: i32)
    requires s >= 0
    ensures var n := s as int;
      (n >= 86400 ==> FormatTime(s) == Decimal(n / 86400) + "d " + Decimal(n / 3600 % 24) + "h")
      && (3600 <= n < 86400 ==> FormatTime(s) == Decimal(n / 3600) + "h " + Decimal(n / 60 % 60) + "m")
      && (60 <= n < 3600 ==> FormatTime(s) == Decimal(n / 60) + "m " + Decimal(n % 60) + "s")
      && (n < 60 ==> FormatTime(s) == Decimal(n) + "s")
  {
    var n := s as int;
    SplitOfNonNegative(n);
    if n >= 86400 {
      assert n / 86400 > 0;
    } else if n >= 3600 {
      BelowDay(n);
    } else if n >= 60 {
      BelowDay(n);
      BelowHour(n);
    } else {
      BelowDay(n);
      BelowHour(n);
      BelowMinute(n);
    }
  }

  lemma BelowDay(n: int)
    requires 0 <= n < 86400
    ensures n / 86400 == 0 && n / 3600 < 24 && n / 3600 % 24 == n / 3600
    ensures n >= 3600 ==> n / 3600 > 0
  {
  }

  lemma BelowHour(n: int)
    requires 0 <= n < 3600
    ensures n / 3600 == 0 && n / 60 < 60 && n / 60 % 60 == n / 60
    ensures n >= 60 ==> n / 60 > 0
  {
  }

  lemma BelowMinute(n: int)
    requires 0 <= n < 60
    ensures n / 60 == 0 && n % 60 == n
  {
  }

  lemma SplitOfNonNegative(n: int)
    requires n >= 0
    ensures SplitTime(n) == TimeParts(n / 86400, n / 3600 % 24, n / 60 % 60, n % 60)
  {
    UnitsOfDay(n);
  }

  /** A negative time truncates to zero days, hours and minutes, so only
      its (negative) seconds of the minute are shown. */
  lemma FormatTimeOfNegative(s: i32)
    requires s < 0
    ensures FormatTime(s) == Decimal(-((-(s as int)) % 60)) + "s"
  {
  }

  // ---------------------------------------------------------------- names

  /** `str::replace` of one char: every occurrence of c, left to right, becomes rep. */
  function Replace(s: seq<char>, c: char, rep: seq<char>): (r: seq<char>)
    ensures c !in rep ==> c !in r
    ensures rep != [] ==> |r| >= |s|
  {
    if s == [] then [] else (if s[0] == c then rep else [s[0]]) + Replace(s[1..], c, rep)
  }

  lemma {:induction false} ReplaceAppend(a: seq<char>, b: seq<char>, c: char, rep: seq<char>)
    ensures Replace(a + b, c, rep) == Replace(a, c, rep) + Replace(b, c, rep)
  {
    if a != [] {
      assert (a + b)[1..] == a[1..] + b;
      ReplaceAppend(a[1..], b, c, rep);
    } else {
      assert a + b == b;
    }
  }

  lemma {:induction false} ReplaceAbsent(s: seq<char>, c: char, rep: seq<char>)
    requires c !in s
    ensures Replace(s, c, rep) == s
  {
    if s != [] {
      ReplaceAbsent(s[1..], c, rep);
      assert s == [s[0]] + s[1..];
    }
  }

  lemma ReplaceOne(x: char, c: char, rep: seq<char>)
    ensures Replace([x], c, rep) == if x == c then rep else [x]
  {
    assert [x][1..] == [];
  }

  /** The replacements `sanitize_html` chains, in the order it applies them. */
  const Rules: seq<(char, seq<char>)> := [
    ('&', "&amp;"), ('<', "&lt;"), ('>', "&gt;"), ('"', "&quot;"), ('\'', "&#x27;"),
    ('\n', " "), ('\r', " ")]

  /** The replacements from rule i on, applied one after the other to the whole text. */
  function ReplaceFrom(s: seq<char>, i: nat): (r: seq<char>)
    requires i <= |Rules|
    ensures |r| >= |s|
    ensures i < |Rules| ==> '\r' !in r
    decreases |Rules| - i
  {
    if i == |Rules| then s else ReplaceFrom(Replace(s, Rules[i].0, Rules[i].1), i + 1)
  }

  /** The text of the first rule from i on that replaces c; c itself when none does. */
  function EscapeFrom(c: char, i: nat): seq<char>
    requires i <= |Rules|
    decreases |Rules| - i
  {
    if i == |Rules| then [c] else if c == Rules[i].0 then Rules[i].1 else EscapeFrom(c, i + 1)
  }

  /** Each char on its own, escaped by the first rule that names it. */
  function Escape(c: char): seq<char>
  {
    EscapeFrom(c, 0)
  }

  function EscapeAll(s: seq<char>): seq<char>
  {
    if s == [] then [] else Escape(s[0]) + EscapeAll(s[1..])
  }

  /** The chars `sanitize_html` must not let through. */
  predicate IsSpecial(c: char)
  {
    c == '<' || c == '>' || c == '"' || c == '\'' || c == '\n' || c == '\r'
  }

  /** No replacement text holds a char that a later rule replaces. */
  lemma RulesFree(i: nat)
    requires i < |Rules|
    ensures forall j | i < j < |Rules| :: Rules[j].0 !in Rules[i].1
  {
    var e := Rules[i].1;
    assert Rules[6].0 !in e;
    if i < 5 { assert Rules[5].0 !in e; }
    if i < 4 { assert Rules[4].0 !in e; }
    if i < 3 { assert Rules[3].0 !in e; }
    if i < 2 { assert Rules[2].0 !in e; }
    if i < 1 { assert Rules[1].0 !in e; }
  }

  lemma {:induction false} ReplaceFromAbsent(e: seq<char>, i: nat)
    requires i <= |Rules|
    requires forall j | i <= j < |Rules| :: Rules[j].0 !in e
    ensures ReplaceFrom(e, i) == e
    decreases |Rules| - i
  {
    if i < |Rules| {
      ReplaceAbsent(e, Rules[i].0, Rules[i].1);
      ReplaceFromAbsent(e, i + 1);
    }
  }

  lemma {:induction false} ReplaceFromAppend(a: seq<char>, b: seq<char>, i: nat)
    requires i <= |Rules|
    ensures ReplaceFrom(a + b, i) == ReplaceFrom(a, i) + ReplaceFrom(b, i)
    decreases |Rules| - i
  {
    if i < |Rules| {
      var (c, rep) := Rules[i];
      ReplaceAppend(a, b, c, rep);
      ReplaceFromAppend(Replace(a, c, rep), Replace(b, c, rep), i + 1);
    }
  }

  /** On a single char, the chain of replacements is the first rule that names it. */
  lemma {:induction false} ReplaceFromChar(c: char, i: nat)
    requires i <= |Rules|
    ensures ReplaceFrom([c], i) == EscapeFrom(c, i)
    decreases |Rules| - i
  {
    if i < |Rules| {
      ReplaceOne(c, Rules[i].0, Rules[i].1);
      if c == Rules[i].0 {
        RulesFree(i);
        ReplaceFromAbsent(Rules[i].1, i + 1);
      } else {
        ReplaceFromChar(c, i + 1);
      }
    }
  }

  /** The chained replacements act on each char of the input once: `&` goes
      first, so the `&` of the entities written later is never escaped again. */
  lemma {:induction false} ReplacementsAreEscape(s: seq<char>)
    ensures ReplaceFrom(s, 0) == EscapeAll(s)
  {
    if s != [] {
      assert s == [s[0]] + s[1..];
      ReplaceFromAppend([s[0]], s[1..], 0);
      ReplaceFromChar(s[0], 0);
      ReplacementsAreEscape(s[1..]);
    }
  }

  /** What each char escapes to. */
  lemma EscapeCases(c: char)
    ensures Escape(c) == if c == '&' then "&amp;" else if c == '<' then "&lt;"
      else if c == '>' then "&gt;" else if c == '"' then "&quot;"
      else if c == '\'' then "&#x27;" else if c == '\n' || c == '\r' then " " else [c]
  {
  }

  lemma EscapeClean(c: char)
    ensures Escape(c) != [] && forall k | 0 <= k < |Escape(c)| :: !IsSpecial(Escape(c)[k])
  {
    EscapeCases(c);
  }

  lemma {:induction false} EscapeAllClean(s: seq<char>)
    ensures forall k | 0 <= k < |EscapeAll(s)| :: !IsSpecial(EscapeAll(s)[k])
  {
    if s != [] {
      EscapeClean(s[0]);
      EscapeAllClean(s[1..]);
      var e, rest := Escape(s[0]), EscapeAll(s[1..]);
      forall k | 0 <= k < |e + rest| ensures !IsSpecial((e + rest)[k]) {
        if k >= |e| {
          assert (e + rest)[k] == rest[k - |e|];
        }
      }
    }
  }

  /** `sanitize_html`: escape a player name for the page, then trim it. */
  function SanitizeHtml(name: seq<char>): (r: seq<char>)
    ensures forall k | 0 <= k < |r| :: !IsSpecial(r[k])
    ensures r == [] || (!IsWhitespace(r[0]) && !IsWhitespace(r[|r| - 1]))
  {
    ReplacementsAreEscape(name);
    EscapeAllClean(name);
    Trim(ReplaceFrom(name, 0))
  }

  lemma {:induction false} EscapeAllAppend(a: seq<char>, b: seq<char>)
    ensures EscapeAll(a + b) == EscapeAll(a) + EscapeAll(b)
  {
    if a != [] {
      assert (a + b)[1..] == a[1..] + b;
      EscapeAllAppend(a[1..], b);
    } else {
      assert a + b == b;
    }
  }

  predicate StartsWith(t: seq<char>, p: seq<char>)
  {
    |p| <= |t| && t[..|p|] == p
  }

  /** HTML's reading of the five entities `sanitize_html` writes; every other
      char stands for itself. */
  function Unescape(t: seq<char>): seq<char>
    decreases |t|
  {
    if t == [] then []
    else if StartsWith(t, "&amp;") then ['&'] + Unescape(t[5..])
    else if StartsWith(t, "&lt;") then ['<'] + Unescape(t[4..])
    else if StartsWith(t, "&gt;") then ['>'] + Unescape(t[4..])
    else if StartsWith(t, "&quot;") then ['"'] + Unescape(t[6..])
    else if StartsWith(t, "&#x27;") then ['\''] + Unescape(t[6..])
    else [t[0]] + Unescape(t[1..])
  }

  /** The entity a char escapes to is read back as that char, whatever follows. */
  lemma UnescapeOne(c: char, rest: seq<char>)
    requires c != '\n' && c != '\r'
    ensures Unescape(Escape(c) + rest) == [c] + Unescape(rest)
  {
    EscapeCases(c);
    if c == '&' { UnescapeAmp(rest); }
    else if c == '<' { UnescapeLt(rest); }
    else if c == '>' { UnescapeGt(rest); }
    else if c == '"' { UnescapeQuot(rest); }
    else if c == '\'' { UnescapeApos(rest); }
    else { UnescapePlain(c, rest); }
  }

  lemma PrefixOf(e: seq<char>, rest: seq<char>)
    ensures StartsWith(e + rest, e) && (e + rest)[|e|..] == rest
  {
    assert (e + rest)[..|e|] == e;
  }

  /** A text whose k-th char differs from p's does not start with p. */
  lemma Mismatch(t: seq<char>, p: seq<char>, k: nat)
    requires k < |p| && k < |t| && t[k] != p[k]
    ensures !StartsWith(t, p)
  {
  }

  lemma UnescapeAmp(rest: seq<char>)
    ensures Unescape("&amp;" + rest) == ['&'] + Unescape(rest)
  {
    PrefixOf("&amp;", rest);
  }

  lemma UnescapeLt(rest: seq<char>)
    ensures Unescape("&lt;" + rest) == ['<'] + Unescape(rest)
  {
    var t := "&lt;" + rest;
    PrefixOf("&lt;", rest);
    assert t[1] == 'l';
    Mismatch(t, "&amp;", 1);
  }

  lemma UnescapeGt(rest: seq<char>)
    ensures Unescape("&gt;" + rest) == ['>'] + Unescape(rest)
  {
    var t := "&gt;" + rest;
    PrefixOf("&gt;", rest);
    assert t[1] == 'g';
    Mismatch(t, "&amp;", 1);
    Mismatch(t, "&lt;", 1);
  }

  lemma UnescapeQuot(rest: seq<char>)
    ensures Unescape("&quot;" + rest) == ['"'] + Unescape(rest)
  {
    var t := "&quot;" + rest;
    PrefixOf("&quot;", rest);
    assert t[1] == 'q';
    Mismatch(t, "&amp;", 1);
    Mismatch(t, "&lt;", 1);
    Mismatch(t, "&gt;", 1);
  }

  lemma UnescapeApos(rest: seq<char>)
    ensures Unescape("&#x27;" + rest) == ['\''] + Unescape(rest)
  {
    var t := "&#x27;" + rest;
    PrefixOf("&#x27;", rest);
    assert t[1] == '#';
    Mismatch(t, "&amp;", 1);
    Mismatch(t, "&lt;", 1);
    Mismatch(t, "&gt;", 1);
    Mismatch(t, "&quot;", 1);
  }

  lemma UnescapePlain(c: char, rest: seq<char>)
    requires c != '&'
    ensures Unescape([c] + rest) == [c] + Unescape(rest)
  {
    var t := [c] + rest;
    assert t[0] == c && t[1..] == rest;
    Mismatch(t, "&amp;", 0);
    Mismatch(t, "&lt;", 0);
    Mismatch(t, "&gt;", 0);
    Mismatch(t, "&quot;", 0);
    Mismatch(t, "&#x27;", 0);
  }

  /** Escaping loses nothing but line breaks. */
  lemma {:induction false} UnescapeEscapeAll(s: seq<char>)
    requires '\n' !in s && '\r' !in s
    ensures Unescape(EscapeAll(s)) == s
  {
    if s != [] {
      UnescapeOne(s[0], EscapeAll(s[1..]));
      UnescapeEscapeAll(s[1..]);
      assert s == [s[0]] + s[1..];
    }
  }

  /** An escaped char starts and ends with a non-blank char when the char is not blank. */
  lemma EscapeEnds(c: char)
    requires !IsWhitespace(c)
    ensures !IsWhitespace(Escape(c)[0]) && !IsWhitespace(Escape(c)[|Escape(c)| - 1])
  {
    EscapeCases(c);
  }

  lemma FirstOfAppend<T>(a: seq<T>, b: seq<T>)
    requires a != []
    ensures (a + b)[0] == a[0]
  {
  }

  lemma LastOfAppend<T>(a: seq<T>, b: seq<T>)
    requires b != []
    ensures (a + b)[|a + b| - 1] == b[|b| - 1]
  {
  }

  /** Escaping a name whose ends are not blank gives a text whose ends are not blank. */
  lemma EscapeAllEnds(name: seq<char>)
    requires name != [] && !IsWhitespace(name[0]) && !IsWhitespace(name[|name| - 1])
    ensures var e := EscapeAll(name);
      e != [] && !IsWhitespace(e[0]) && !IsWhitespace(e[|e| - 1])
  {
    EscapeAllFirst(name);
    EscapeAllLast(name);
  }

  lemma EscapeAllFirst(name: seq<char>)
    requires name != [] && !IsWhitespace(name[0])
    ensures EscapeAll(name) != [] && !IsWhitespace(EscapeAll(name)[0])
  {
    var first := Escape(name[0]);
    EscapeClean(name[0]);
    EscapeEnds(name[0]);
    assert EscapeAll(name) == first + EscapeAll(name[1..]);
    FirstOfAppend(first, EscapeAll(name[1..]));
  }

  lemma EscapeAllLast(name: seq<char>)
    requires name != [] && !IsWhitespace(name[|name| - 1])
    ensures var e := EscapeAll(name); e != [] && !IsWhitespace(e[|e| - 1])
  {
    var n := |name| - 1;
    var last := Escape(name[n]);
    EscapeClean(name[n]);
    EscapeEnds(name[n]);
    assert name == name[..n] + [name[n]];
    EscapeAllAppend(name[..n], [name[n]]);
    assert EscapeAll([name[n]]) == last + EscapeAll([]);
    assert last + [] == last;
    LastOfAppend(EscapeAll(name[..n]), last);
  }

  /** A name without line breaks and without surrounding blanks is read back
      from its sanitised form exactly. */
  lemma SanitizeHtmlRoundTrip(name: seq<char>)
    requires '\n' !in name && '\r' !in name
    requires name == [] || (!IsWhitespace(name[0]) && !IsWhitespace(name[|name| - 1]))
    ensures Unescape(SanitizeHtml(name)) == name
  {
    ReplacementsAreEscape(name);
    if name != [] {
      EscapeAllEnds(name);
    }
    TrimOfTrimmed(EscapeAll(name));
    UnescapeEscapeAll(name);
  }

  // ---------------------------------------------------------------- profile link

  const Https: seq<char> := "https://"
  const SteamProfilePrefix: seq<char> := Https + "steamcommunity.com/profiles/"
  const UsgnProfilePrefix: seq<char> := Https + "unrealsoftware.de/profile.php?userid="

  /** The link behind a player's name: a Steam profile for user type 1, an
      Unreal Software profile for every other type, followed by the user id
      in decimal. */
  function ProfileUrl(p: PlayerStats): (r: seq<char>)
    ensures var prefix := if p.usertype == 1 then SteamProfilePrefix else UsgnProfilePrefix;
      var id := Decimal(p.userid as int);
      |r| == |prefix| + |id| && r[..|prefix|] == prefix && r[|prefix|..] == id
  {
    var prefix := if p.usertype == 1 then SteamProfilePrefix else UsgnProfilePrefix;
    var id := Decimal(p.userid as int);
    assert (prefix + id)[..|prefix|] == prefix;
    assert (prefix + id)[|prefix|..] == id;
    prefix + id
  }

  lemma PrefixesDiffer()
    ensures |SteamProfilePrefix| > 8 && SteamProfilePrefix[8] == 's' && SteamProfilePrefix[..8] == Https
    ensures |UsgnProfilePrefix| > 8 && UsgnProfilePrefix[8] == 'u' && UsgnProfilePrefix[..8] == Https
  {
    assert |Https| == 8;
  }

  lemma CharOfAppend<T>(x: seq<T>, a: seq<T>, k: nat)
    requires k < |x|
    ensures (x + a)[k] == x[k]
  {
  }

  lemma CancelPrefix<T>(x: seq<T>, a: seq<T>, b: seq<T>)
    requires x + a == x + b
    ensures a == b
  {
    assert a == (x + a)[|x|..];
  }

  /** The link tells which site the player is on and which user id they have. */
  lemma ProfileUrlDetermines(p: PlayerStats, q: PlayerStats)
    requires ProfileUrl(p) == ProfileUrl(q)
    ensures (p.usertype == 1 <==> q.usertype == 1) && p.userid == q.userid
  {
    var pp := if p.usertype == 1 then SteamProfilePrefix else UsgnProfilePrefix;
    var qp := if q.usertype == 1 then SteamProfilePrefix else UsgnProfilePrefix;
    var a, b := Decimal(p.userid as int), Decimal(q.userid as int);
    PrefixesDiffer();
    CharOfAppend(pp, a, 8);
    CharOfAppend(qp, b, 8);
    assert pp == qp;
    CancelPrefix(pp, a, b);
    DecimalInjective(p.userid as int, q.userid as int);
  }

  // ---------------------------------------------------------------- minifier

  /** A run of non-whitespace chars. */
  predicate IsWord(w: seq<char>)
  {
    w != [] && forall k | 0 <= k < |w| :: !IsWhitespace(w[k])
  }

  predicate AllWords(ws: seq<seq<char>>)
  {
    forall i | 0 <= i < |ws| :: IsWord(ws[i])
  }

  /** The last char of a text; NUL, the minifier's starting `prev_char`,
      for the empty text. */
  function Last(w: seq<char>): char
  {
    if w == [] then '\0' else w[|w| - 1]
  }

  /** The words of s, in order: the maximal runs of non-whitespace chars. */
  function Words(s: seq<char>): seq<seq<char>>
  {
    if s == [] then []
    else
      var init, c := s[..|s| - 1], s[|s| - 1];
      var ws := Words(init);
      if IsWhitespace(c) then ws
      else if ws == [] || IsWhitespace(Last(init)) then ws + [[c]]
      else ws[..|ws| - 1] + [ws[|ws| - 1] + [c]]
  }

  /** What the minifier writes between two words: nothing between `>` and
      `<`, one space otherwise. */
  function Sep(a: seq<char>, b: seq<char>): seq<char>
  {
    if Last(a) == '>' && b != [] && b[0] == '<' then [] else [' ']
  }

  /** The words put back together, each pair separated by Sep. */
  function Join(ws: seq<seq<char>>): seq<char>
  {
    if ws == [] then []
    else if |ws| == 1 then ws[0]
    else
      var init := ws[..|ws| - 1];
      Join(init) + Sep(init[|init| - 1], ws[|ws| - 1]) + ws[|ws| - 1]
  }

  /** The space the minifier writes before the first word when the input
      starts with whitespace; the final `trim` removes it. */
  function Lead(p: seq<char>): seq<char>
  {
    if p != [] && IsWhitespace(p[0]) && Words(p) != [] then [' '] else []
  }

  /** What the minifier has written after reading p, before the final trim. */
  function Written(p: seq<char>): seq<char>
  {
    Lead(p) + Join(Words(p))
  }

  /** The last non-whitespace char of p, or NUL when there is none. */
  function LastChar(p: seq<char>): char
  {
    var ws := Words(p);
    if ws == [] then '\0' else Last(ws[|ws| - 1])
  }

  lemma SplitLast<T>(s: seq<T>)
    requires s != []
    ensures s[..|s| - 1] + [s[|s| - 1]] == s
  {
  }

  lemma AllWhitespaceSnoc(p: seq<char>, c: char)
    ensures AllWhitespace(p + [c]) <==> AllWhitespace(p) && IsWhitespace(c)
  {
    if AllWhitespace(p + [c]) {
      forall k | 0 <= k < |p| ensures IsWhitespace(p[k]) {
        assert (p + [c])[k] == p[k];
      }
      assert (p + [c])[|p|] == c;
    }
  }

  /** The words after one more char of the input. */
  lemma WordsSnoc(p: seq<char>, c: char)
    ensures var ws := Words(p);
      Words(p + [c]) ==
        if IsWhitespace(c) then ws
        else if ws == [] || IsWhitespace(Last(p)) then ws + [[c]]
        else ws[..|ws| - 1] + [ws[|ws| - 1] + [c]]
  {
    assert (p + [c])[..|p|] == p;
  }

  /** A text has no words exactly when it is all whitespace. */
  lemma {:induction false} WordsNone(s: seq<char>)
    ensures Words(s) == [] <==> AllWhitespace(s)
    decreases |s|
  {
    if s != [] {
      var p, c := s[..|s| - 1], s[|s| - 1];
      SplitLast(s);
      WordsSnoc(p, c);
      WordsNone(p);
      AllWhitespaceSnoc(p, c);
    }
  }

  /** A text that ends in a non-whitespace char ends in a word that ends in it. */
  lemma WordsLast(s: seq<char>)
    requires s != [] && !IsWhitespace(Last(s))
    ensures var ws := Words(s);
      ws != [] && ws[|ws| - 1] != [] && Last(ws[|ws| - 1]) == Last(s)
  {
    SplitLast(s);
    WordsSnoc(s[..|s| - 1], s[|s| - 1]);
  }

  lemma WordSnoc(w: seq<char>, c: char)
    requires IsWord(w) && !IsWhitespace(c)
    ensures IsWord(w + [c])
  {
    forall k | 0 <= k < |w| + 1 ensures !IsWhitespace((w + [c])[k]) {
      if k < |w| {
        assert (w + [c])[k] == w[k];
      }
    }
  }

  lemma AllWordsPrefix(ws: seq<seq<char>>, n: nat)
    requires AllWords(ws) && n <= |ws|
    ensures AllWords(ws[..n])
  {
    forall i | 0 <= i < n ensures IsWord(ws[..n][i]) {
      assert ws[..n][i] == ws[i];
    }
  }

  lemma AllWordsSnoc(ws: seq<seq<char>>, w: seq<char>)
    requires AllWords(ws) && IsWord(w)
    ensures AllWords(ws + [w])
  {
    forall i | 0 <= i < |ws| + 1 ensures IsWord((ws + [w])[i]) {
      if i < |ws| {
        assert (ws + [w])[i] == ws[i];
      }
    }
  }

  /** Every word is a non-empty run of non-whitespace chars. */
  lemma {:induction false} WordsAreWords(s: seq<char>)
    ensures AllWords(Words(s))
    decreases |s|
  {
    if s != [] {
      var p, c := s[..|s| - 1], s[|s| - 1];
      SplitLast(s);
      WordsSnoc(p, c);
      WordsAreWords(p);
      var ws := Words(p);
      if !IsWhitespace(c) {
        if ws == [] || IsWhitespace(Last(p)) {
          AllWordsSnoc(ws, [c]);
        } else {
          WordSnoc(ws[|ws| - 1], c);
          AllWordsPrefix(ws, |ws| - 1);
          AllWordsSnoc(ws[..|ws| - 1], ws[|ws| - 1] + [c]);
        }
      }
    }
  }

  lemma JoinSnoc(ws: seq<seq<char>>, w: seq<char>)
    requires ws != []
    ensures Join(ws + [w]) == Join(ws) + Sep(ws[|ws| - 1], w) + w
  {
    var t := ws + [w];
    assert |t| > 1 && t[..|t| - 1] == ws && t[|t| - 1] == w;
  }

  /** The joined words start with the first word's first char and end with
      the last word's last char. */
  lemma {:induction false} JoinEnds(ws: seq<seq<char>>)
    requires AllWords(ws) && ws != []
    ensures Join(ws) != [] && Join(ws)[0] == ws[0][0] && Last(Join(ws)) == Last(ws[|ws| - 1])
    decreases |ws|
  {
    if |ws| > 1 {
      var init := ws[..|ws| - 1];
      AllWordsPrefix(ws, |ws| - 1);
      JoinEnds(init);
      var a, b := Join(init) + Sep(init[|init| - 1], ws[|ws| - 1]), ws[|ws| - 1];
      assert Join(ws) == a + b;
      assert (a + b)[0] == a[0];
    }
  }

  /** A char added to a non-empty last word is added to the end of the
      joined text. */
  lemma JoinExtend(init: seq<seq<char>>, w: seq<char>, c: char)
    requires w != []
    ensures Join(init + [w + [c]]) == Join(init + [w]) + [c]
  {
    if init == [] {
      assert init + [w] == [w] && init + [w + [c]] == [w + [c]];
    } else {
      JoinSnoc(init, w);
      JoinSnoc(init, w + [c]);
      var pre := Join(init) + Sep(init[|init| - 1], w);
      assert Sep(init[|init| - 1], w + [c]) == Sep(init[|init| - 1], w);
      AppendAssoc(pre, w, [c]);
    }
  }

  /** Whitespace at the end of a text adds no word. */
  lemma {:induction false} WordsBlankTail(a: seq<char>, w: seq<char>)
    requires AllWhitespace(w)
    ensures Words(a + w) == Words(a)
    decreases |w|
  {
    if w == [] {
      assert a + w == a;
    } else {
      var v, c := w[..|w| - 1], w[|w| - 1];
      assert AllWhitespace(v) && IsWhitespace(c) by {
        AllWhitespaceSnoc(v, c);
        SplitLast(w);
      }
      WordsBlankTail(a, v);
      assert Words((a + v) + [c]) == Words(a + v) by {
        WordsSnoc(a + v, c);
      }
      assert a + w == (a + v) + [c];
    }
  }

  /** After whitespace (or at the start), the words of what follows are new
      words: none of them is merged into a word before it. */
  lemma {:induction false} WordsAfterBlank(p: seq<char>, b: seq<char>)
    requires p == [] || IsWhitespace(Last(p))
    ensures Words(p + b) == Words(p) + Words(b)
    decreases |b|
  {
    if b == [] {
      assert p + b == p;
    } else {
      var v, c := b[..|b| - 1], b[|b| - 1];
      SplitLast(b);
      WordsAfterBlank(p, v);
      assert p + b == (p + v) + [c];
      if v == [] {
        assert p + v == p;
        WordsSnoc(p, c);
        WordsSnoc([], c);
      } else {
        assert Last(p + v) == Last(v);
        WordsAfterBlankStep(p, v, c);
      }
    }
  }

  lemma WordsAfterBlankStep(p: seq<char>, v: seq<char>, c: char)
    requires v != [] && Words(p + v) == Words(p) + Words(v) && Last(p + v) == Last(v)
    ensures Words((p + v) + [c]) == Words(p) + Words(v + [c])
  {
    WordsSnoc(p + v, c);
    WordsSnoc(v, c);
    if !IsWhitespace(c) && !IsWhitespace(Last(v)) {
      WordsLast(v);
      LastWordShift(Words(p), Words(v), c);
    }
  }

  /** Extending the last word of a concatenation extends the last word of
      its second part. */
  lemma LastWordShift(ws: seq<seq<char>>, vs: seq<seq<char>>, c: char)
    requires vs != []
    ensures var t := ws + vs;
      t[..|t| - 1] + [t[|t| - 1] + [c]] == ws + (vs[..|vs| - 1] + [vs[|vs| - 1] + [c]])
  {
    var t := ws + vs;
    assert t[..|t| - 1] == ws + vs[..|vs| - 1];
  }

  /** A single run of non-whitespace chars is one word. */
  lemma {:induction false} WordsOfWord(w: seq<char>)
    requires IsWord(w)
    ensures Words(w) == [w]
    decreases |w|
  {
    var v, c := w[..|w| - 1], w[|w| - 1];
    SplitLast(w);
    WordsSnoc(v, c);
    if v != [] {
      forall k | 0 <= k < |v| ensures !IsWhitespace(v[k]) {
        assert v[k] == w[k];
      }
      WordsOfWord(v);
    }
  }

  /** A text that starts with a non-whitespace char starts its first word
      with it. */
  lemma {:induction false} WordsFirst(b: seq<char>)
    requires b != [] && !IsWhitespace(b[0])
    ensures var ws := Words(b); ws != [] && ws[0] != [] && ws[0][0] == b[0]
    decreases |b|
  {
    var v, c := b[..|b| - 1], b[|b| - 1];
    SplitLast(b);
    WordsSnoc(v, c);
    if v != [] {
      assert v[0] == b[0];
      WordsFirst(v);
    }
  }

  /** Words are the maximal runs: a whitespace gap splits the text into the
      words before it and the words after it, whatever its length. */
  lemma WordsSplit(a: seq<char>, w: seq<char>, b: seq<char>)
    requires w != [] && AllWhitespace(w)
    ensures Words(a + w + b) == Words(a) + Words(b)
  {
    WordsBlankTail(a, w);
    assert Last(a + w) == Last(w);
    WordsAfterBlank(a + w, b);
  }

  /** Joining two non-empty lists of words puts one Sep between them. */
  lemma {:induction false} JoinAppend(xs: seq<seq<char>>, ys: seq<seq<char>>)
    requires xs != [] && ys != []
    ensures Join(xs + ys) == Join(xs) + Sep(xs[|xs| - 1], ys[0]) + Join(ys)
    decreases |ys|
  {
    if |ys| == 1 {
      assert xs + ys == xs + [ys[0]];
      JoinSnoc(xs, ys[0]);
    } else {
      var init, y := ys[..|ys| - 1], ys[|ys| - 1];
      SplitLast(ys);
      assert init[0] == ys[0];
      JoinAppend(xs, init);
      JoinAppendStep(xs, init, y);
    }
  }

  lemma JoinAppendStep(xs: seq<seq<char>>, init: seq<seq<char>>, y: seq<char>)
    requires xs != [] && init != []
    requires Join(xs + init) == Join(xs) + Sep(xs[|xs| - 1], init[0]) + Join(init)
    ensures Join(xs + (init + [y])) == Join(xs) + Sep(xs[|xs| - 1], init[0]) + Join(init + [y])
  {
    assert xs + (init + [y]) == (xs + init) + [y];
    assert (xs + init)[|xs + init| - 1] == init[|init| - 1];
    JoinSnoc(xs + init, y);
    JoinSnoc(init, y);
    var a, sep, sep' := Join(xs), Sep(xs[|xs| - 1], init[0]), Sep(init[|init| - 1], y);
    Regroup(a + sep, Join(init), sep', y);
  }

  /** The minified form of two texts with a whitespace gap between them is
      their minified forms with one Sep between: the whole gap becomes a
      single space, or nothing between `>` and `<`. */
  lemma JoinSplit(a: seq<char>, w: seq<char>, b: seq<char>)
    requires a != [] && !IsWhitespace(Last(a)) && w != [] && AllWhitespace(w)
    requires b != [] && !IsWhitespace(b[0])
    ensures Join(Words(a + w + b)) == Join(Words(a)) + Sep(a, b) + Join(Words(b))
  {
    WordsSplit(a, w, b);
    WordsLast(a);
    WordsFirst(b);
    JoinAppend(Words(a), Words(b));
  }

  /** Whitespace leaves what is written and the last char as they are. */
  lemma MinifyBlank(p: seq<char>, c: char)
    requires IsWhitespace(c)
    ensures Written(p + [c]) == Written(p) && LastChar(p + [c]) == LastChar(p)
  {
    WordsSnoc(p, c);
    if p != [] {
      assert (p + [c])[0] == p[0];
    }
  }

  /** The first char of the input, when it is not whitespace, is written as is. */
  lemma MinifyFirst(c: char)
    requires !IsWhitespace(c)
    ensures Written([c]) == [c]
  {
    WordsSnoc([], c);
    assert [] + [c] == [c];
  }

  /** A word that follows only whitespace is written after a space (the one
      the final `trim` removes). */
  lemma MinifyFirstWord(p: seq<char>, c: char)
    requires p != [] && Words(p) == [] && !IsWhitespace(c)
    ensures Written(p) == [] && Written(p + [c]) == [' ', c]
  {
    WordsNone(p);
    WordsSnoc(p, c);
    assert IsWhitespace(Last(p));
    assert Words(p + [c]) == [[c]];
    assert (p + [c])[0] == p[0];
  }

  /** A word after whitespace is written after Sep. */
  lemma MinifyNextWord(p: seq<char>, c: char)
    requires p != [] && IsWhitespace(Last(p)) && Words(p) != [] && !IsWhitespace(c)
    ensures var ws := Words(p);
      Written(p + [c]) == Written(p) + Sep(ws[|ws| - 1], [c]) + [c]
  {
    WordsSnoc(p, c);
    var ws := Words(p);
    assert Words(p + [c]) == ws + [[c]];
    assert (p + [c])[0] == p[0];
    JoinSnoc(ws, [c]);
    var lead, sep := Lead(p), Sep(ws[|ws| - 1], [c]);
    AppendAssoc(lead, Join(ws) + sep, [c]);
    AppendAssoc(lead, Join(ws), sep);
  }

  /** A char inside a word is written right after the one before it. */
  lemma MinifyInWord(p: seq<char>, c: char)
    requires p != [] && !IsWhitespace(Last(p)) && !IsWhitespace(c)
    ensures Written(p + [c]) == Written(p) + [c]
  {
    WordsLast(p);
    WordsSnoc(p, c);
    var ws := Words(p);
    var n := |ws|;
    assert (p + [c])[0] == p[0];
    SplitLast(ws);
    JoinExtend(ws[..n - 1], ws[n - 1], c);
    AppendAssoc(Lead(p), Join(ws), [c]);
  }

  /** After a non-whitespace char, that char is the last one written. */
  lemma MinifyLastChar(p: seq<char>, c: char)
    requires !IsWhitespace(c)
    ensures LastChar(p + [c]) == c
  {
    WordsSnoc(p, c);
  }

  /** One whitespace char of input changes nothing that is written. */
  lemma MinifyStepBlank(html: seq<char>, i: nat)
    requires i < |html| && IsWhitespace(html[i])
    ensures Written(html[..i + 1]) == Written(html[..i])
    ensures LastChar(html[..i + 1]) == LastChar(html[..i])
  {
    assert html[..i + 1] == html[..i] + [html[i]];
    MinifyBlank(html[..i], html[i]);
  }

  /** One non-whitespace char of input: a space first when whitespace came
      before it, unless that whitespace stood between `>` and `<`. */
  lemma MinifyStepWord(html: seq<char>, i: nat, lastWasSpace: bool, prevChar: char, gap: seq<char>)
    requires i < |html| && !IsWhitespace(html[i])
    requires lastWasSpace == (i > 0 && IsWhitespace(html[i - 1]))
    requires prevChar == LastChar(html[..i])
    requires gap == if lastWasSpace && !(prevChar == '>' && html[i] == '<') then [' '] else []
    ensures LastChar(html[..i + 1]) == html[i]
    ensures Written(html[..i + 1]) == Written(html[..i]) + gap + [html[i]]
  {
    var p, c := html[..i], html[i];
    assert html[..i + 1] == p + [c];
    assert lastWasSpace == (p != [] && IsWhitespace(Last(p)));
    MinifyLastChar(p, c);
    if lastWasSpace {
      MinifyAfterSpace(p, c, gap);
    } else {
      MinifyNoSpace(p, c, gap);
    }
  }

  lemma MinifyAfterSpace(p: seq<char>, c: char, gap: seq<char>)
    requires p != [] && IsWhitespace(Last(p)) && !IsWhitespace(c)
    requires gap == if !(LastChar(p) == '>' && c == '<') then [' '] else []
    ensures Written(p + [c]) == Written(p) + gap + [c]
  {
    var ws := Words(p);
    if ws == [] {
      assert gap == [' '];
      MinifyFirstWord(p, c);
    } else {
      assert Sep(ws[|ws| - 1], [c]) == gap;
      MinifyNextWord(p, c);
    }
  }

  lemma MinifyNoSpace(p: seq<char>, c: char, gap: seq<char>)
    requires p == [] || !IsWhitespace(Last(p))
    requires !IsWhitespace(c) && gap == []
    ensures Written(p + [c]) == Written(p) + gap + [c]
  {
    assert Written(p) + gap == Written(p);
    if p == [] {
      MinifyFirst(c);
      assert Written(p) == [] by { assert Words(p) == []; }
    } else {
      MinifyInWord(p, c);
    }
  }

  /** A single leading space is dropped by `trim`. */
  lemma TrimSpace(t: seq<char>)
    requires t != [] && !IsWhitespace(t[0]) && !IsWhitespace(Last(t))
    ensures Trim([' '] + t) == t
  {
    var s := [' '] + t;
    assert s[1..] == t;
    assert LeadingWhitespace(t) == 0;
    assert LeadingWhitespace(s) == 1;
    assert TrailingWhitespace(t) == 0;
  }

  /** The final `trim` leaves exactly the joined words. */
  lemma TrimJoin(s: seq<char>)
    ensures Trim(Written(s)) == Join(Words(s))
  {
    var ws := Words(s);
    assert Join(ws) == [] || (!IsWhitespace(Join(ws)[0]) && !IsWhitespace(Last(Join(ws)))) by {
      WordsAreWords(s);
      if ws != [] {
        JoinEnds(ws);
      }
    }
    TrimLead(Lead(s), Join(ws));
  }

  /** An optional leading space before a text with non-blank ends is all `trim` removes. */
  lemma TrimLead(lead: seq<char>, t: seq<char>)
    requires lead == [] || lead == [' ']
    requires t == [] || (!IsWhitespace(t[0]) && !IsWhitespace(Last(t)))
    ensures Trim(lead + t) == t
  {
    if lead == [] {
      assert lead + t == t;
      TrimOfTrimmed(t);
    } else if t == [] {
      assert lead + t == [' '];
      assert LeadingWhitespace([' ']) == 1;
    } else {
      TrimSpace(t);
    }
  }

  /** The non-whitespace chars of s, in order. */
  function NonBlank(s: seq<char>): (r: seq<char>)
    ensures |r| <= |s|
  {
    if s == [] then []
    else NonBlank(s[..|s| - 1]) + (if IsWhitespace(s[|s| - 1]) then [] else [s[|s| - 1]])
  }

  lemma NonBlankSnoc(p: seq<char>, c: char)
    ensures NonBlank(p + [c]) == NonBlank(p) + (if IsWhitespace(c) then [] else [c])
  {
    assert (p + [c])[..|p|] == p;
  }

  lemma {:induction false} NonBlankAppend(a: seq<char>, b: seq<char>)
    ensures NonBlank(a + b) == NonBlank(a) + NonBlank(b)
    decreases |b|
  {
    if b != [] {
      var c := b[|b| - 1];
      var b0 := b[..|b| - 1];
      assert a + b == (a + b0) + [c];
      NonBlankAppend(a, b0);
      NonBlankSnoc(a + b0, c);
      NonBlankSnoc(b0, c);
      AppendAssoc(NonBlank(a), NonBlank(b0), if IsWhitespace(c) then [] else [c]);
    } else {
      assert a + b == a;
    }
  }

  /** A char after an optional space adds just that char. */
  lemma NonBlankStep(w: seq<char>, gap: seq<char>, c: char)
    requires gap == [] || gap == [' ']
    requires !IsWhitespace(c)
    ensures NonBlank(w + gap + [c]) == NonBlank(w) + [c]
  {
    assert NonBlank(w + gap) == NonBlank(w) by {
      if gap != [] {
        NonBlankSnoc(w, ' ');
        assert NonBlank(w) + [] == NonBlank(w);
      } else {
        assert w + gap == w;
      }
    }
    NonBlankSnoc(w + gap, c);
  }

  lemma WrittenEmpty()
    ensures Written([]) == [] && LastChar([]) == '\0' && NonBlank([]) == []
  {
    assert Words([]) == [];
  }

  /** Nothing but whitespace is lost while reading. */
  lemma {:induction false} WrittenNonBlank(html: seq<char>, i: nat)
    requires i <= |html|
    ensures NonBlank(Written(html[..i])) == NonBlank(html[..i])
  {
    if i > 0 {
      WrittenNonBlank(html, i - 1);
      WrittenNonBlankStep(html, i - 1);
    } else {
      assert html[..i] == [];
      WrittenEmpty();
    }
  }

  lemma WrittenNonBlankStep(html: seq<char>, i: nat)
    requires i < |html| && NonBlank(Written(html[..i])) == NonBlank(html[..i])
    ensures NonBlank(Written(html[..i + 1])) == NonBlank(html[..i + 1])
  {
    assert NonBlank(html[..i + 1]) == NonBlank(html[..i]) + NonBlank([html[i]]) by {
      assert html[..i + 1] == html[..i] + [html[i]];
      NonBlankAppend(html[..i], [html[i]]);
    }
    if IsWhitespace(html[i]) {
      WrittenNonBlankBlank(html, i);
    } else {
      WrittenNonBlankWord(html, i);
    }
  }

  lemma WrittenNonBlankBlank(html: seq<char>, i: nat)
    requires i < |html| && IsWhitespace(html[i])
    ensures NonBlank(Written(html[..i + 1])) == NonBlank(Written(html[..i])) + NonBlank([html[i]])
  {
    MinifyStepBlank(html, i);
    NonBlankSnoc([], html[i]);
    assert [] + [html[i]] == [html[i]];
    assert NonBlank(Written(html[..i])) + [] == NonBlank(Written(html[..i]));
  }

  lemma WrittenNonBlankWord(html: seq<char>, i: nat)
    requires i < |html| && !IsWhitespace(html[i])
    ensures NonBlank(Written(html[..i + 1])) == NonBlank(Written(html[..i])) + NonBlank([html[i]])
  {
    var c := html[i];
    var lastWasSpace := i > 0 && IsWhitespace(html[i - 1]);
    var prevChar := LastChar(html[..i]);
    var gap: seq<char> := if lastWasSpace && !(prevChar == '>' && c == '<') then [' '] else [];
    MinifyStepWord(html, i, lastWasSpace, prevChar, gap);
    NonBlankStep(Written(html[..i]), gap, c);
    NonBlankSnoc([], c);
    assert [] + [c] == [c];
  }

  /** The joined words hold the same non-whitespace chars as the input. */
  lemma JoinNonBlank(s: seq<char>)
    ensures NonBlank(Join(Words(s))) == NonBlank(s)
  {
    WrittenNonBlank(s, |s|);
    assert s[..|s|] == s;
    NonBlankAppend(Lead(s), Join(Words(s)));
    if Lead(s) != [] {
      NonBlankSnoc([], ' ');
      assert [] + [' '] == Lead(s);
    }
  }

  /** The whitespace shape of minified text: every whitespace char is a
      space with a non-whitespace char on each side, and never between `>`
      and `<`; so there is none at either end and no two in a row. */
  predicate Spaced(t: seq<char>)
  {
    forall k | 0 <= k < |t| && IsWhitespace(t[k]) ::
      0 < k < |t| - 1 && t[k] == ' ' && !IsWhitespace(t[k - 1]) && !IsWhitespace(t[k + 1])
      && !(t[k - 1] == '>' && t[k + 1] == '<')
  }

  lemma SpacedWord(w: seq<char>)
    requires IsWord(w)
    ensures Spaced(w)
  {
  }

  /** A word added after Sep keeps the shape. */
  lemma SpacedSnoc(a: seq<char>, sep: seq<char>, w: seq<char>)
    requires a != [] && Spaced(a) && !IsWhitespace(Last(a)) && IsWord(w)
    requires sep == [] || (sep == [' '] && !(Last(a) == '>' && w[0] == '<'))
    ensures Spaced(a + sep + w)
  {
    var t := a + sep + w;
    forall k | 0 <= k < |t| && IsWhitespace(t[k])
      ensures 0 < k < |t| - 1 && t[k] == ' ' && !IsWhitespace(t[k - 1]) && !IsWhitespace(t[k + 1])
      ensures !(t[k - 1] == '>' && t[k + 1] == '<')
    {
      if k < |a| {
        assert t[k] == a[k];
        assert k < |a| - 1;
        assert t[k - 1] == a[k - 1] && t[k + 1] == a[k + 1];
      } else if k < |a| + |sep| {
        assert t[k - 1] == Last(a) && t[k + 1] == w[0];
      }
    }
  }

  /** Joined words have the minified shape. */
  lemma {:induction false} JoinSpaced(ws: seq<seq<char>>)
    requires AllWords(ws)
    ensures Spaced(Join(ws))
    decreases |ws|
  {
    if |ws| == 1 {
      SpacedWord(ws[0]);
    } else if |ws| > 1 {
      var init := ws[..|ws| - 1];
      AllWordsPrefix(ws, |ws| - 1);
      JoinSpaced(init);
      JoinEnds(init);
      SpacedSnoc(Join(init), Sep(init[|init| - 1], ws[|ws| - 1]), ws[|ws| - 1]);
    }
  }

  /** The minifier's variables after it has read a prefix of its input:
      whether the last char read was whitespace, the last non-whitespace char
      (NUL before the first), and the text written so far. */
  datatype MinifyState = MinifyState(lastWasSpace: bool, prevChar: char, out: seq<char>)

  /** One turn of the minifier's loop, as a function of its variables. */
  function MinifyStep(st: MinifyState, c: char): (r: MinifyState)
    ensures st.out <= r.out
    ensures r.out == st.out <==> IsWhitespace(c)
    ensures !IsWhitespace(c) ==> r.prevChar == c == Last(r.out)
  {
    if IsWhitespace(c) then st.(lastWasSpace := true)
    else
      var gap := if st.lastWasSpace && !(st.prevChar == '>' && c == '<') then [' '] else [];
      MinifyState(false, c, st.out + gap + [c])
  }

  /** The variables after the loop has read p. */
  function MinifyRun(p: seq<char>): (r: MinifyState)
    ensures r.prevChar == Last(r.out)
    ensures r.out == [] || !IsWhitespace(Last(r.out))
  {
    if p == [] then MinifyState(false, '\0', [])
    else MinifyStep(MinifyRun(p[..|p| - 1]), p[|p| - 1])
  }

  lemma MinifyRunSnoc(html: seq<char>, i: nat)
    requires i < |html|
    ensures MinifyRun(html[..i + 1]) == MinifyStep(MinifyRun(html[..i]), html[i])
  {
    assert html[..i + 1][..i] == html[..i];
  }

  /** After any prefix, the text written is Written of that prefix and the
      char remembered is its last non-whitespace char. */
  lemma {:induction false} MinifyRunWritten(html: seq<char>, i: nat)
    requires i <= |html|
    ensures MinifyRun(html[..i])
      == MinifyState(i > 0 && IsWhitespace(html[i - 1]), LastChar(html[..i]), Written(html[..i]))
  {
    if i == 0 {
      assert html[..i] == [];
      WrittenEmpty();
    } else {
      var j := i - 1;
      MinifyRunWritten(html, j);
      MinifyRunSnoc(html, j);
      if IsWhitespace(html[j]) {
        MinifyStepBlank(html, j);
      } else {
        var st := MinifyRun(html[..j]);
        var gap: seq<char> := if st.lastWasSpace && !(st.prevChar == '>' && html[j] == '<') then [' '] else [];
        MinifyStepWord(html, j, st.lastWasSpace, st.prevChar, gap);
      }
    }
  }

  /** The whitespace minifier at the end of `write_html`: whitespace runs
      are dropped, and where one stood between two other chars a single
      space is written, unless it stood between `>` and `<`. The result is
      trimmed. */
  method Minify(html: seq<char>) returns (minified: seq<char>)
    ensures minified == Join(Words(html))
    ensures NonBlank(minified) == NonBlank(html)
    ensures Spaced(minified)
  {
    var out: seq<char> := [];
    var lastWasSpace := false;
    var prevChar := '\0';
    var i := 0;
    assert html[..i] == [];
    while i < |html|
      invariant 0 <= i <= |html|
      invariant MinifyState(lastWasSpace, prevChar, out) == MinifyRun(html[..i])
    {
      MinifyRunSnoc(html, i);
      var c := html[i];
      if IsWhitespace(c) {
        lastWasSpace := true;
      } else {
        if lastWasSpace {
          if !(prevChar == '>' && c == '<') {
            out := out + [' '];
          }
          lastWasSpace := false;
        }
        out := out + [c];
        prevChar := c;
      }
      i := i + 1;
    }
    assert html[..i] == html;
    MinifyRunWritten(html, i);
    TrimJoin(html);
    WordsAreWords(html);
    JoinNonBlank(html);
    JoinSpaced(Words(html));
    minified := Trim(out);
  }
}
