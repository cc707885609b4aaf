/** The text of a cron expression (packages/scheduler/src/ScheduleRepository.ts): white space,
    capital letters, the names for common schedules, and what counts as a number. */
module CronText {
  import opened Calendar
  import opened Cron
  import opened CronField
  import opened Shared

  /** The white space of ASCII. */
  predicate Blank(c: char) {
    c in [' ', '\t', '\n', '\r', '\U{B}', '\U{C}']
  }

  /** The words of a text: its longest stretches without white space. */
  function Words(s: string): seq<string> {
    if s == "" then []
    else
      var rest := Words(s[1..]);
      if Blank(s[0]) then rest
      else if |s| == 1 || Blank(s[1]) || rest == [] then [[s[0]]] + rest
      else [[s[0]] + rest[0]] + rest[1..]
  }

  lemma {:induction false} BlanksAgree(c: char)
    ensures Space(c) <==> Blank(c)
  {
    var blanks := [' ', '\t', '\n', '\r', '\U{B}', '\U{C}'];
    assert Blank(c) <==> exists k :: 0 <= k < |blanks| && blanks[k] == c;
    assert blanks[0] == ' ' && blanks[1] == '\t' && blanks[2] == '\n' && blanks[3] == '\r';
    assert blanks[4] == '\U{B}' && blanks[5] == '\U{C}';
  }

  lemma {:induction false} StartsWithWord(s: string)
    requires s != "" && !Blank(s[0])
    ensures Words(s) != []
  {
  }

  // ---------------------------------------------------------------- trimming

  lemma {:induction false} LeftTrimmed(s: string)
    ensures var t := TrimLeft(s); Words(t) == Words(s) && (t == "" || !Blank(t[0]))
    decreases |s|
  {
    if s != "" {
      BlanksAgree(s[0]);
      if Space(s[0]) { LeftTrimmed(s[1..]); }
    }
  }

  lemma {:induction false} BlankAtEnd(s: string, c: char)
    requires Blank(c)
    ensures Words(s + [c]) == Words(s)
    decreases |s|
  {
    var t := s + [c];
    if s != "" {
      assert t[1..] == s[1..] + [c];
      BlankAtEnd(s[1..], c);
    }
  }

  lemma {:induction false} RightTrimmed(s: string)
    ensures var t := TrimRight(s);
            && t <= s && Words(t) == Words(s) && (t == "" || !Blank(t[|t| - 1]))
    decreases |s|
  {
    if s != "" {
      var n := |s| - 1;
      BlanksAgree(s[n]);
      if Space(s[n]) {
        RightTrimmed(s[..n]);
        BlankAtEnd(s[..n], s[n]);
        assert s == s[..n] + [s[n]];
      }
    }
  }

  /** Trimming drops no word and leaves no white space at the ends. */
  lemma {:induction false} TrimmedWords(s: string)
    ensures var t := TrimRight(TrimLeft(s));
            && Words(t) == Words(s)
            && (t == "" || (!Blank(t[0]) && !Blank(t[|t| - 1])))
  {
    LeftTrimmed(s);
    RightTrimmed(TrimLeft(s));
  }

  // ---------------------------------------------------------------- splitting

  lemma {:induction false} SplitsAtBlanks(s: string)
    requires s != "" && !Blank(s[|s| - 1])
    ensures SplitSpaces(s) == if Blank(s[0]) then [""] + Words(s) else Words(s)
    decreases |s|
  {
    BlanksAgree(s[0]);
    if |s| == 1 {
      assert s == [s[0]] && s[1..] == "";
      assert SplitSpaces(s[1..]) == [""] && [s[0]] + "" == [s[0]];
    } else {
      var rest := s[1..];
      BlanksAgree(s[1]);
      assert rest[|rest| - 1] == s[|s| - 1] && [s[0]] + "" == [s[0]];
      SplitsAtBlanks(rest);
      if !Blank(s[1]) { StartsWithWord(rest); }
    }
  }

  lemma {:induction false} NoWords(s: string)
    requires s == "" || (!Blank(s[0]) && !Blank(s[|s| - 1]))
    ensures SplitSpaces(s) == if Words(s) == [] then [""] else Words(s)
  {
    if s != "" {
      StartsWithWord(s);
      SplitsAtBlanks(s);
    }
  }

  // ---------------------------------------------------------------- names

  /** What the names stand for. */
  const NAMES: map<string, string> := map[
    "@yearly" := "0 0 1 1 *", "@annually" := "0 0 1 1 *", "@monthly" := "0 0 1 * *", "@weekly" := "0 0 * * 0",
    "@daily" := "0 0 * * *", "@midnight" := "0 0 * * *", "@hourly" := "0 * * * *"]

  /** The expression is this name, in letters of any case, with white space around it. */
  predicate Names(expression: string, name: string) {
    |Words(expression)| == 1 && Lower(Words(expression)[0]) == name
  }

  function LowerAll(ws: seq<string>): seq<string> {
    seq(|ws|, i requires 0 <= i < |ws| => Lower(ws[i]))
  }

  lemma {:induction false} BlankStays(c: char)
    ensures Blank(LowerChar(c)) <==> Blank(c)
  {
    BlanksAgree(c);
    BlanksAgree(LowerChar(c));
  }

  lemma {:induction false} LowerNew(c: char, ws: seq<string>)
    ensures LowerAll([[c]] + ws) == [[LowerChar(c)]] + LowerAll(ws)
  {
    assert Lower([c]) == [LowerChar(c)];
  }

  lemma {:induction false} LowerGrown(c: char, ws: seq<string>)
    requires ws != []
    ensures LowerAll([[c] + ws[0]] + ws[1..]) == [[LowerChar(c)] + LowerAll(ws)[0]] + LowerAll(ws)[1..]
  {
    assert Lower([c] + ws[0]) == [LowerChar(c)] + Lower(ws[0]);
  }

  lemma {:induction false} LoweredWords(s: string)
    ensures Words(Lower(s)) == LowerAll(Words(s))
    decreases |s|
  {
    if s != "" {
      var t, rest := Lower(s), s[1..];
      assert t[1..] == Lower(rest) && t[0] == LowerChar(s[0]);
      BlankStays(s[0]);
      if |s| > 1 {
        BlankStays(s[1]);
        assert t[1] == LowerChar(s[1]);
      }
      LoweredWords(rest);
      LowerNew(s[0], Words(rest));
      if Words(rest) != [] {
        LowerGrown(s[0], Words(rest));
      }
    }
  }

  lemma {:induction false} EndsWithWord(s: string)
    requires s != "" && !Blank(s[|s| - 1])
    ensures Words(s) != []
    decreases |s|
  {
    if |s| > 1 {
      assert s[1..][|s| - 2] == s[|s| - 1];
      EndsWithWord(s[1..]);
    }
  }

  /** A text with one word and no white space at its ends is that word. */
  lemma {:induction false} OneWord(s: string)
    requires s != "" && !Blank(s[0]) && !Blank(s[|s| - 1])
    ensures |Words(s)| == 1 ==> Words(s)[0] == s
    decreases |s|
  {
    if |s| > 1 {
      var rest := s[1..];
      assert rest[|rest| - 1] == s[|s| - 1];
      EndsWithWord(rest);
      if !Blank(s[1]) {
        OneWord(rest);
        assert [s[0]] + rest == s;
      }
    }
  }

  lemma {:induction false} WordAlone(s: string)
    requires s != "" && forall k :: 0 <= k < |s| ==> !Blank(s[k])
    ensures Words(s) == [s]
    decreases |s|
  {
    assert [s[0]] + s[1..] == s;
    if |s| > 1 {
      assert forall k :: 0 <= k < |s[1..]| ==> s[1..][k] == s[k + 1];
      assert !Blank(s[1]);
      WordAlone(s[1..]);
    } else {
      assert s[1..] == "" && [s[0]] == s;
    }
  }

  /** What is compared with the names: the trimmed text in small letters. */
  lemma {:induction false} TextIsName(expression: string, name: string)
    requires name != "" && forall k :: 0 <= k < |name| ==> !Blank(name[k])
    ensures Lower(TrimRight(TrimLeft(expression))) == name <==> Names(expression, name)
  {
    var t := TrimRight(TrimLeft(expression));
    TrimmedWords(expression);
    LoweredWords(t);
    WordAlone(name);
    if |Words(t)| == 1 {
      OneWord(t);
    }
  }

  ghost predicate Named(expression: string) {
    exists name :: name in NAMES && Names(expression, name)
  }

  lemma {:induction false} NamesAreWords(name: string)
    requires name in NAMES
    ensures name != "" && forall k :: 0 <= k < |name| ==> !Blank(name[k])
  {
    NoBlanks(name, "@yearly");
    NoBlanks(name, "@annually");
    NoBlanks(name, "@monthly");
    NoBlanks(name, "@weekly");
    NoBlanks(name, "@daily");
    NoBlanks(name, "@midnight");
    NoBlanks(name, "@hourly");
  }

  lemma {:induction false} NoBlanks(name: string, known: string)
    requires known in NAMES
    ensures name == known ==> name != "" && forall k :: 0 <= k < |name| ==> !Blank(name[k])
  {
    forall k | name == known && 0 <= k < |name|
      ensures !Blank(name[k])
    {
      BlanksAgree(name[k]);
    }
  }

  lemma {:induction false} NameNormal(text: string, name: string)
    requires name in NAMES && Lower(TrimRight(TrimLeft(text))) == name
    ensures Normalize(text) == NAMES[name]
  {
  }

  lemma {:induction false} NamedText(text: string)
    requires text in NAMES.Values
    ensures |text| == 9 && text[0] == '0' && (text[8] == '*' || text[8] == '0')
  {
  }

  lemma {:induction false} NameSplits(expression: string, name: string)
    requires name in NAMES && Lower(TrimRight(TrimLeft(expression))) == name
    ensures Parts(expression) == Words(NAMES[name])
  {
    NameNormal(expression, name);
    TextSplits(NAMES[name]);
  }

  lemma {:induction false} TextSplits(text: string)
    requires text in NAMES.Values
    ensures SplitSpaces(text) == Words(text)
  {
    NamedText(text);
    BlanksAgree(text[0]);
    BlanksAgree(text[8]);
    StartsWithWord(text);
    NoWords(text);
  }

  function FieldTexts(s: Schedule): seq<string> {
    [PrintField(s.minute), PrintField(s.hour), PrintField(s.day), PrintField(s.month), PrintField(s.weekday)]
  }

  /** The fields of every expression: the words of what its name stands for, or its own words in
      small letters. */
  lemma {:induction false} PartsExactly(expression: string, name: string)
    ensures name in NAMES && Names(expression, name) ==> Parts(expression) == Words(NAMES[name])
    ensures !Named(expression) ==>
              Parts(expression) == if Words(expression) == [] then [""] else LowerAll(Words(expression))
  {
    if name in NAMES && Names(expression, name) {
      NamesAreWords(name);
      TextIsName(expression, name);
      NameSplits(expression, name);
    }
    if !Named(expression) {
      var t := Lower(TrimRight(TrimLeft(expression)));
      if t in NAMES {
        NamesAreWords(t);
        TextIsName(expression, t);
      }
      assert Normalize(expression) == t;
      TrimmedLower(expression);
      NoWords(t);
    }
  }

  lemma {:induction false} TrimmedLower(expression: string)
    ensures var t := Lower(TrimRight(TrimLeft(expression)));
            && Words(t) == LowerAll(Words(expression))
            && (t == "" || (!Blank(t[0]) && !Blank(t[|t| - 1])))
  {
    var s := TrimRight(TrimLeft(expression));
    TrimmedWords(expression);
    LoweredWords(s);
    if s != "" {
      BlankStays(s[0]);
      BlankStays(s[|s| - 1]);
    }
  }

  /** A written schedule means what its fields mean, however its words are spaced. */
  lemma {:induction false} SpacingIsIgnored(expression: string, s: Schedule, f: Fields)
    requires LowerAll(Words(expression)) == FieldTexts(s)
    ensures |Parts(expression)| == 5 && (Matches(Parts(expression), f) <==> ScheduleMeans(s, f))
  {
    assert |Words(expression)| == 5;
    PartsExactly(expression, "");
    PartsRead(Parts(expression), s, f);
  }

  /** What each name stands for, in terms of runs. */
  lemma {:induction false} NamesRun(expression: string, from: int)
    ensures var t := from / 60000;
            && (Names(expression, "@yearly") || Names(expression, "@annually") ==>
                  NextRun(expression, from) == Next(1440 * YearStart(YearOf(t / 1440) + 1)))
            && (Names(expression, "@monthly") ==> NextRun(expression, from) == Next(1440 * NextFirst(t / 1440)))
            && (Names(expression, "@weekly") ==> NextRun(expression, from) == Next(1440 * NextSunday(t / 1440)))
            && (Names(expression, "@daily") || Names(expression, "@midnight") ==>
                  NextRun(expression, from) == Next(1440 * (t / 1440 + 1)))
            && (Names(expression, "@hourly") ==> NextRun(expression, from) == Next(60 * (t / 60 + 1)))
  {
    if Names(expression, "@yearly") || Names(expression, "@annually") {
      NamedNormal(expression, if Names(expression, "@yearly") then "@yearly" else "@annually", "0 0 1 1 *");
      YearlySucceeds(expression, from);
    }
    if Names(expression, "@monthly") {
      NamedNormal(expression, "@monthly", "0 0 1 * *");
      MonthlySucceeds(expression, from);
    }
    if Names(expression, "@weekly") {
      NamedNormal(expression, "@weekly", "0 0 * * 0");
      WeeklySucceeds(expression, from);
    }
    if Names(expression, "@daily") || Names(expression, "@midnight") {
      NamedNormal(expression, if Names(expression, "@daily") then "@daily" else "@midnight", "0 0 * * *");
      DailySucceeds(expression, from);
    }
    if Names(expression, "@hourly") {
      NamedNormal(expression, "@hourly", "0 * * * *");
      HourlySucceeds(expression, from);
    }
  }

  lemma {:induction false} NamedNormal(expression: string, name: string, text: string)
    requires name in NAMES && NAMES[name] == text && Names(expression, name)
    ensures Normalize(expression) == text
  {
    NamesAreWords(name);
    TextIsName(expression, name);
    NameNormal(expression, name);
  }

  lemma {:induction false} KnownNames(name: string)
    requires name in NAMES
    ensures name in ["@yearly", "@annually", "@monthly", "@weekly", "@daily", "@midnight", "@hourly"]
  {
  }

  lemma {:induction false} NamedRuns(expression: string, from: int, name: string)
    requires name in NAMES && Names(expression, name)
    ensures NextRun(expression, from).Next?
  {
    KnownNames(name);
    NamesRun(expression, from);
  }

  /** An expression is invalid exactly when it has not five words and is no name. */
  lemma {:induction false} InvalidExactly(expression: string, from: int)
    ensures NextRun(expression, from) == InvalidExpression <==> |Words(expression)| != 5 && !Named(expression)
  {
    if name :| name in NAMES && Names(expression, name) {
      NamedRuns(expression, from, name);
    } else {
      PartsExactly(expression, "");
    }
  }

  // ---------------------------------------------------------------- numbers

  /** The number that decimal digits spell. */
  function Value(digits: string): int
    requires AllDigits(digits)
  {
    if digits == "" then 0
    else 10 * Value(digits[..|digits| - 1]) + (digits[|digits| - 1] as int - '0' as int)
  }

  lemma {:induction false} DigitsRead(digits: string)
    requires AllDigits(digits) && digits != ""
    ensures LeadingInt(digits, 0, false) == Some(Value(digits))
    ensures LeadingInt(digits, 0, true) == Some(Value(digits))
  {
    var n := |digits| - 1;
    assert digits == digits[..n] + [digits[n]];
    if n > 0 {
      DigitsRead(digits[..n]);
    } else {
      assert digits[..n] == "";
    }
    LeadingSnoc(digits[..n], digits[n], 0, false);
    LeadingSnoc(digits[..n], digits[n], 0, true);
  }

  lemma {:induction false} ReadingStops(digits: string, rest: string, acc: int, seen: bool)
    requires AllDigits(digits) && (rest == "" || !Digit(rest[0]))
    ensures LeadingInt(digits + rest, acc, seen) == LeadingInt(digits, acc, seen)
    decreases |digits|
  {
    if digits == "" {
      assert digits + rest == rest;
    } else {
      assert (digits + rest)[1..] == digits[1..] + rest;
      ReadingStops(digits[1..], rest, 10 * acc + (digits[0] as int - '0' as int), true);
    }
  }

  /** `parseInt` reads the digits in front, with one sign before them, and ignores what follows
      them; without a digit there is no number. */
  lemma {:induction false} ParseExactly(digits: string, rest: string)
    requires AllDigits(digits) && (rest == "" || !Digit(rest[0]))
    ensures digits != "" ==>
              && ParseInt(digits + rest) == Some(Value(digits))
              && ParseInt("+" + digits + rest) == Some(Value(digits))
              && ParseInt("-" + digits + rest) == Some(-Value(digits))
    ensures digits == "" ==>
              && ParseInt("+" + rest) == None && ParseInt("-" + rest) == None
              && (rest == "" || (rest[0] != '+' && rest[0] != '-') ==> ParseInt(rest) == None)
  {
    var text := digits + rest;
    assert ("+" + digits + rest)[1..] == text && ("-" + digits + rest)[1..] == text;
    ReadingStops(digits, rest, 0, false);
    if digits != "" {
      DigitsRead(digits);
      assert text[0] == digits[0];
    } else {
      assert text == rest && ("+" + rest)[1..] == rest && ("-" + rest)[1..] == rest;
    }
  }

  /** `Number` reads nothing but digits, with at most a plus before them, and nothing at all as
      zero. */
  lemma {:induction false} NumberExactly(s: string, n: int)
    ensures ToNumber(s) == Some(n) <==>
              || (s == "" && n == 0)
              || (s != "" && AllDigits(s) && n == Value(s))
              || (|s| > 1 && s[0] == '+' && AllDigits(s[1..]) && n == Value(s[1..]))
  {
    if s != "" && AllDigits(s) {
      ParseExactly(s, "");
      assert s + "" == s;
    } else if |s| > 1 && s[0] == '+' && AllDigits(s[1..]) {
      ParseExactly(s[1..], "");
      assert "+" + s[1..] + "" == s;
    }
  }
}
