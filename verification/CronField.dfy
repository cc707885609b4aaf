/** Cron fields (packages/scheduler/src/ScheduleRepository.ts): the matcher, which works on
    text, and what the fields it is given mean. */
module CronField {
  import opened Calendar
  import opened Shared

  /** A JavaScript number read from text: `None` stands for NaN. */
  type Num = Option<int>

  // ---------------------------------------------------------------- text

  predicate Space(c: char) {
    c == ' ' || c == '\t' || c == '\n' || c == '\r' || c == '\U{B}' || c == '\U{C}'
  }

  function TrimLeft(s: string): string {
    if s != "" && Space(s[0]) then TrimLeft(s[1..]) else s
  }

  function TrimRight(s: string): string {
    if s != "" && Space(s[|s| - 1]) then TrimRight(s[..|s| - 1]) else s
  }

  /** `split` on one character. */
  function Split(s: string, c: char): (parts: seq<string>)
    ensures |parts| >= 1
    ensures c in s ==> |parts| >= 2
  {
    if s == "" then [""]
    else
      var rest := Split(s[1..], c);
      if s[0] == c then [""] + rest else [[s[0]] + rest[0]] + rest[1..]
  }

  /** `split` on runs of white space; the text carries none at its ends. */
  function SplitSpaces(s: string): (parts: seq<string>)
    ensures |parts| >= 1
  {
    if s == "" then [""]
    else if Space(s[0]) then
      if |s| > 1 && Space(s[1]) then SplitSpaces(s[1..]) else [""] + SplitSpaces(s[1..])
    else
      var rest := SplitSpaces(s[1..]);
      [[s[0]] + rest[0]] + rest[1..]
  }

  predicate Digit(c: char) {
    '0' <= c <= '9'
  }

  /** The value of the leading digits, given what came before; `seen` is false before any. */
  function LeadingInt(s: string, acc: int, seen: bool): Num {
    if s != "" && Digit(s[0]) then LeadingInt(s[1..], 10 * acc + (s[0] as int - '0' as int), true)
    else if seen then Some(acc) else None
  }

  function Negate(n: Num): Num {
    if n.Some? then Some(-n.value) else None
  }

  /** `parseInt(s, 10)` on a text without white space. */
  function ParseInt(s: string): Num {
    if s != "" && s[0] == '-' then Negate(LeadingInt(s[1..], 0, false))
    else if s != "" && s[0] == '+' then LeadingInt(s[1..], 0, false)
    else LeadingInt(s, 0, false)
  }

  predicate AllDigits(s: string) {
    forall i | 0 <= i < |s| :: Digit(s[i])
  }

  /** `Number(s)` on decimal integers; the empty text is zero. */
  function ToNumber(s: string): Num {
    if s == "" then Some(0)
    else if AllDigits(s) || (s[0] == '+' && |s| > 1 && AllDigits(s[1..])) then ParseInt(s)
    else None
  }

  // ---------------------------------------------------------------- matching

  function Bounds(range: string, min: int, max: int): (Num, Num) {
    if range == "*" then (Some(min), Some(max))
    else if '-' in range then (ToNumber(Split(range, '-')[0]), ToNumber(Split(range, '-')[1]))
    else (ParseInt(range), Some(max))
  }

  /** One item of a list; comparisons with NaN are false. */
  predicate ItemMatches(item: string, value: int, min: int, max: int) {
    if item == "*" then true
    else if '/' in item then
      var step := ParseInt(Split(item, '/')[1]);
      if step == None || step.value <= 0 then false
      else
        var (start, end) := Bounds(Split(item, '/')[0], min, max);
        if (start.Some? && value < start.value) || (end.Some? && value > end.value) then false
        else start.Some? && (value - start.value) % step.value == 0
    else if '-' in item then
      var start, end := ToNumber(Split(item, '-')[0]), ToNumber(Split(item, '-')[1]);
      start.Some? && end.Some? && start.value <= value <= end.value
    else ParseInt(item) == Some(value)
  }

  predicate FieldMatches(field: string, value: int, min: int, max: int) {
    if ',' in field then exists item | item in Split(field, ',') :: ItemMatches(item, value, min, max)
    else ItemMatches(field, value, min, max)
  }

  predicate Matches(parts: seq<string>, f: Fields)
    requires |parts| == 5
  {
    && FieldMatches(parts[0], f.minute, 0, 59)
    && FieldMatches(parts[1], f.hour, 0, 23)
    && FieldMatches(parts[2], f.day, 1, 31)
    && FieldMatches(parts[3], f.month, 1, 12)
    && FieldMatches(parts[4], f.weekday, 0, 6)
  }

  function Normalize(expression: string): string {
    var trimmed := Lower(TrimRight(TrimLeft(expression)));
    if trimmed == "@yearly" || trimmed == "@annually" then "0 0 1 1 *"
    else if trimmed == "@monthly" then "0 0 1 * *"
    else if trimmed == "@weekly" then "0 0 * * 0"
    else if trimmed == "@daily" || trimmed == "@midnight" then "0 0 * * *"
    else if trimmed == "@hourly" then "0 * * * *"
    else trimmed
  }

  function Parts(expression: string): seq<string> {
    SplitSpaces(Normalize(expression))
  }

  // ---------------------------------------------------------------- meaning

  datatype Range = Any | Only(n: nat) | Span(low: nat, high: nat)

  datatype Item = Whole(range: Range) | Every(range: Range, step: nat)

  type Field = s: seq<Item> | s != [] witness [Whole(Any)]

  function Numeral(n: nat): string {
    if n < 10 then ['0' + n as char] else Numeral(n / 10) + ['0' + (n % 10) as char]
  }

  function PrintRange(r: Range): string {
    match r
    case Any => "*"
    case Only(n) => Numeral(n)
    case Span(low, high) => Numeral(low) + "-" + Numeral(high)
  }

  function PrintItem(item: Item): string {
    match item
    case Whole(r) => PrintRange(r)
    case Every(r, step) => PrintRange(r) + "/" + Numeral(step)
  }

  function PrintField(f: Field): string
    decreases |f|
  {
    if |f| == 1 then PrintItem(f[0]) else PrintItem(f[0]) + "," + PrintField(f[1..])
  }

  /** The values a range stands for before a step; a star stands for the whole field. */
  function Low(r: Range, min: int): int {
    match r
    case Any => min
    case Only(n) => n
    case Span(low, _) => low
  }

  function High(r: Range, max: int): int {
    match r
    case Any => max
    case Only(_) => max
    case Span(_, high) => high
  }

  /** What an item means: `a/k` runs from `a` to the end of the field, and a step of zero
      matches nothing. */
  predicate Means(item: Item, value: int, min: int, max: int) {
    match item
    case Whole(Any) => true
    case Whole(Only(n)) => value == n
    case Whole(Span(low, high)) => low <= value <= high
    case Every(r, step) =>
      step > 0 && Low(r, min) <= value <= High(r, max) && (value - Low(r, min)) % step == 0
  }

  ghost predicate FieldMeans(f: Field, value: int, min: int, max: int) {
    exists i :: 0 <= i < |f| && Means(f[i], value, min, max)
  }

  // ---------------------------------------------------------------- reading it back

  lemma {:induction false} NumeralDigits(n: nat)
    ensures |Numeral(n)| > 0 && AllDigits(Numeral(n))
    ensures forall c :: c in Numeral(n) ==> Digit(c)
  {
    if n >= 10 {
      NumeralDigits(n / 10);
    }
  }

  lemma {:induction false} LeadingSnoc(s: string, d: char, acc: int, seen: bool)
    requires AllDigits(s) && Digit(d)
    ensures var before := LeadingInt(s, acc, true);
            before.Some? && LeadingInt(s + [d], acc, seen) == Some(10 * before.value + (d as int - '0' as int))
    decreases |s|
  {
    if s == "" {
      assert ([] + [d])[1..] == "";
      assert s + [d] == [d];
    } else {
      assert (s + [d])[1..] == s[1..] + [d];
      LeadingSnoc(s[1..], d, 10 * acc + (s[0] as int - '0' as int), true);
    }
  }

  lemma {:induction false} NumeralValue(n: nat)
    ensures LeadingInt(Numeral(n), 0, false) == Some(n) && LeadingInt(Numeral(n), 0, true) == Some(n)
  {
    if n < 10 {
      LeadingSnoc("", '0' + n as char, 0, false);
      LeadingSnoc("", '0' + n as char, 0, true);
      assert "" + Numeral(n) == Numeral(n);
    } else {
      NumeralDigits(n / 10);
      NumeralValue(n / 10);
      LeadingSnoc(Numeral(n / 10), '0' + (n % 10) as char, 0, false);
      LeadingSnoc(Numeral(n / 10), '0' + (n % 10) as char, 0, true);
    }
  }

  /** A printed numeral reads as its number, by both readers. */
  lemma {:induction false} NumeralReads(n: nat)
    ensures ParseInt(Numeral(n)) == Some(n) && ToNumber(Numeral(n)) == Some(n)
  {
    NumeralDigits(n);
    NumeralValue(n);
    assert Numeral(n)[0] in Numeral(n);
  }

  lemma {:induction false} SplitFree(s: string, c: char)
    requires c !in s
    ensures Split(s, c) == [s]
    decreases |s|
  {
    if s != "" {
      SplitFree(s[1..], c);
      assert [s[0]] + s[1..] == s;
    }
  }

  lemma {:induction false} SplitAt(a: string, c: char, b: string)
    requires c !in a
    ensures Split(a + [c] + b, c) == [a] + Split(b, c)
    decreases |a|
  {
    var s := a + [c] + b;
    if a == "" {
      assert s == [c] + b && s[1..] == b;
    } else {
      assert s[0] == a[0] && s[1..] == a[1..] + [c] + b;
      SplitAt(a[1..], c, b);
      assert [a[0]] + a[1..] == a;
    }
  }

  lemma {:induction false} RangeLetters(r: Range)
    ensures forall c :: c in PrintRange(r) ==> Digit(c) || c == '*' || c == '-'
    ensures '-' in PrintRange(r) <==> r.Span?
    ensures PrintRange(r) == "*" <==> r.Any?
  {
    match r
    case Any =>
    case Only(n) => NumeralDigits(n); assert Numeral(n)[0] in Numeral(n);
    case Span(low, high) =>
      NumeralDigits(low);
      NumeralDigits(high);
      assert PrintRange(r)[|Numeral(low)|] == '-';
  }

  lemma {:induction false} SpanReads(low: nat, high: nat)
    ensures var parts := Split(PrintRange(Span(low, high)), '-');
            |parts| == 2 && ToNumber(parts[0]) == Some(low) && ToNumber(parts[1]) == Some(high)
  {
    NumeralDigits(low);
    NumeralDigits(high);
    SplitAt(Numeral(low), '-', Numeral(high));
    SplitFree(Numeral(high), '-');
    NumeralReads(low);
    NumeralReads(high);
  }

  lemma {:induction false} BoundsRead(r: Range, min: int, max: int)
    ensures Bounds(PrintRange(r), min, max) == (Some(Low(r, min)), Some(High(r, max)))
  {
    RangeLetters(r);
    match r
    case Any =>
    case Only(n) => NumeralReads(n);
    case Span(low, high) => SpanReads(low, high);
  }

  lemma {:induction false} WholeReads(r: Range, value: int, min: int, max: int)
    ensures ItemMatches(PrintRange(r), value, min, max) <==> Means(Whole(r), value, min, max)
  {
    RangeLetters(r);
    match r
    case Any =>
    case Only(n) => NumeralReads(n);
    case Span(low, high) => SpanReads(low, high);
  }

  lemma {:induction false} EveryReads(r: Range, step: nat, value: int, min: int, max: int)
    ensures ItemMatches(PrintItem(Every(r, step)), value, min, max) <==> Means(Every(r, step), value, min, max)
  {
    var s := PrintItem(Every(r, step));
    RangeLetters(r);
    NumeralDigits(step);
    SplitAt(PrintRange(r), '/', Numeral(step));
    SplitFree(Numeral(step), '/');
    assert s[|PrintRange(r)|] == '/';
    NumeralReads(step);
    BoundsRead(r, min, max);
  }

  lemma {:induction false} ItemReads(item: Item, value: int, min: int, max: int)
    ensures ItemMatches(PrintItem(item), value, min, max) <==> Means(item, value, min, max)
    ensures ',' !in PrintItem(item)
    ensures forall c :: c in PrintItem(item) ==> !Space(c)
    ensures PrintItem(item) != ""
  {
    RangeLetters(item.range);
    match item
    case Whole(r) =>
      WholeReads(r, value, min, max);
      RangeNotEmpty(r);
    case Every(r, step) =>
      EveryReads(r, step, value, min, max);
      NumeralDigits(step);
  }

  lemma {:induction false} RangeNotEmpty(r: Range)
    ensures PrintRange(r) != ""
  {
    if r.Only? { NumeralDigits(r.n); }
  }

  lemma {:induction false} FieldSplits(f: Field)
    ensures ',' in PrintField(f) <==> |f| > 1
    ensures Split(PrintField(f), ',') == PrintItems(f)
    decreases |f|
  {
    ItemReads(f[0], 0, 0, 0);
    PrintItemsCons(f);
    if |f| == 1 {
      SplitFree(PrintItem(f[0]), ',');
    } else {
      FieldSplits(f[1..]);
      SplitAt(PrintItem(f[0]), ',', PrintField(f[1..]));
      assert PrintField(f)[|PrintItem(f[0])|] == ',';
    }
  }

  function PrintItems(f: seq<Item>): seq<string> {
    seq(|f|, i requires 0 <= i < |f| => PrintItem(f[i]))
  }

  lemma {:induction false} PrintItemsCons(f: seq<Item>)
    requires f != []
    ensures PrintItems(f) == [PrintItem(f[0])] + PrintItems(f[1..])
  {
  }

  /** The matcher is right about every field of the language: for any list of stars, numbers,
      ranges and steps, the printed field matches exactly the values it means. */
  lemma {:induction false} FieldReads(f: Field, value: int, min: int, max: int)
    ensures FieldMatches(PrintField(f), value, min, max) <==> FieldMeans(f, value, min, max)
  {
    FieldSplits(f);
    var items := Split(PrintField(f), ',');
    forall i | 0 <= i < |f|
      ensures items[i] in items
      ensures ItemMatches(items[i], value, min, max) <==> Means(f[i], value, min, max)
    {
      ItemReads(f[i], value, min, max);
    }
    if |f| == 1 {
      assert items[0] == PrintField(f);
    }
  }

  // ---------------------------------------------------------------- five fields

  datatype Schedule = Schedule(minute: Field, hour: Field, day: Field, month: Field, weekday: Field)

  function PrintSchedule(s: Schedule): string {
    PrintField(s.minute) + " " + (PrintField(s.hour) + " " + (PrintField(s.day) + " " +
      (PrintField(s.month) + " " + PrintField(s.weekday))))
  }

  ghost predicate ScheduleMeans(s: Schedule, f: Fields) {
    && FieldMeans(s.minute, f.minute, 0, 59)
    && FieldMeans(s.hour, f.hour, 0, 23)
    && FieldMeans(s.day, f.day, 1, 31)
    && FieldMeans(s.month, f.month, 1, 12)
    && FieldMeans(s.weekday, f.weekday, 0, 6)
  }

  predicate Word(w: string) {
    w != "" && forall c :: c in w ==> !Space(c)
  }

  lemma {:induction false} FieldIsWord(f: Field)
    ensures Word(PrintField(f))
    decreases |f|
  {
    ItemReads(f[0], 0, 0, 0);
    if |f| > 1 {
      FieldIsWord(f[1..]);
    }
  }

  /** A word before a blank is split off. */
  lemma {:induction false} SplitWord(w: string, s: string)
    requires Word(w) && s != "" && !Space(s[0])
    ensures SplitSpaces(w + " " + s) == [w] + SplitSpaces(s)
    decreases |w|
  {
    var t := w + " " + s;
    assert t[0] == w[0] && w[0] in w;
    if |w| == 1 {
      var y := " " + s;
      assert t[1..] == y && y[1..] == s && y[1] == s[0];
      assert SplitSpaces(y) == [""] + SplitSpaces(s);
      assert [w[0]] + "" == w;
    } else {
      assert t[1..] == w[1..] + " " + s;
      SplitWord(w[1..], s);
      assert [w[0]] + w[1..] == w;
    }
  }

  lemma {:induction false} SplitLast(w: string)
    requires Word(w)
    ensures SplitSpaces(w) == [w]
    decreases |w|
  {
    assert w[0] in w;
    if |w| == 1 {
      assert w[1..] == "" && [w[0]] + "" == w;
    } else {
      SplitLast(w[1..]);
      assert [w[0]] + w[1..] == w;
    }
  }

  lemma {:induction false} FiveWords(a: string, b: string, c: string, d: string, e: string)
    requires Word(a) && Word(b) && Word(c) && Word(d) && Word(e)
    ensures SplitSpaces(a + " " + (b + " " + (c + " " + (d + " " + e)))) == [a, b, c, d, e]
  {
    assert b[0] in b && c[0] in c && d[0] in d && e[0] in e;
    SplitLast(e);
    SplitWord(d, e);
    SplitWord(c, d + " " + e);
    SplitWord(b, c + " " + (d + " " + e));
    SplitWord(a, b + " " + (c + " " + (d + " " + e)));
  }

  lemma {:induction false} ScheduleSplits(expression: string, s: Schedule)
    requires Normalize(expression) == PrintSchedule(s)
    ensures Parts(expression)
         == [PrintField(s.minute), PrintField(s.hour), PrintField(s.day), PrintField(s.month), PrintField(s.weekday)]
  {
    FieldIsWord(s.minute);
    FieldIsWord(s.hour);
    FieldIsWord(s.day);
    FieldIsWord(s.month);
    FieldIsWord(s.weekday);
    FiveWords(PrintField(s.minute), PrintField(s.hour), PrintField(s.day), PrintField(s.month), PrintField(s.weekday));
  }

  /** What a whole expression means: the five fields, combined with "and". */
  lemma {:induction false} ScheduleReads(expression: string, s: Schedule, f: Fields)
    requires Normalize(expression) == PrintSchedule(s)
    ensures |Parts(expression)| == 5 && (Matches(Parts(expression), f) <==> ScheduleMeans(s, f))
  {
    ScheduleSplits(expression, s);
    PartsRead(Parts(expression), s, f);
  }

  lemma {:induction false} PartsRead(parts: seq<string>, s: Schedule, f: Fields)
    requires |parts| == 5 && parts[0] == PrintField(s.minute) && parts[1] == PrintField(s.hour)
    requires parts[2] == PrintField(s.day) && parts[3] == PrintField(s.month) && parts[4] == PrintField(s.weekday)
    ensures Matches(parts, f) <==> ScheduleMeans(s, f)
  {
    FieldReads(s.minute, f.minute, 0, 59);
    FieldReads(s.hour, f.hour, 0, 23);
    FieldReads(s.day, f.day, 1, 31);
    FieldReads(s.month, f.month, 1, 12);
    FieldReads(s.weekday, f.weekday, 0, 6);
  }
}
