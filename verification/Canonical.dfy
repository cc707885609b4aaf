/** Canonical JSON text (packages/audit-engine/src/AuditHasher.ts and its two siblings) over
    UTF-16 code units, and exactly which values share a text. */
module Canonical {

  type Unit = u: nat | u < 0x10000
  type Text = seq<Unit>

  /** A JavaScript value of the kinds the serializers distinguish. The fields of an object are
      listed in insertion order. */
  datatype Value =
    | Null
    | Undefined
    | NonFinite
    | Bool(b: bool)
    | Int(n: int)
    | Str(s: Text)
    | Date(iso: Text)
    | Arr(items: seq<Value>)
    | Obj(fields: seq<Field>)

  datatype Field = Field(key: Text, value: Value)

  /** The serializer of the tool gateway has no case for dates, so it prints their own
      enumerable properties, of which there are none. */
  datatype Impl = Audit | Evidence | ToolGateway

  // ---------------------------------------------------------------- scalars

  function Digits(n: nat): Text {
    if n < 10 then [48 + n] else Digits(n / 10) + [48 + n % 10]
  }

  function Decimal(n: int): Text {
    if n < 0 then [45] + Digits(-n) else Digits(n)
  }

  predicate High(u: Unit) { 0xD800 <= u < 0xDC00 }

  predicate Low(u: Unit) { 0xDC00 <= u < 0xE000 }

  function HexDigit(d: nat): Unit
    requires d < 16
  {
    if d < 10 then 48 + d else 87 + d
  }

  /** `\b`, `\t`, `\n`, `\f`, `\r`, `\"` and `\\` have short escapes. */
  function Short(u: Unit): Unit {
    if u == 8 then 98 else if u == 9 then 116 else if u == 10 then 110 else if u == 12 then 102
    else if u == 13 then 114 else if u == 34 then 34 else if u == 92 then 92 else 0
  }

  function EscapeUnit(u: Unit): Text {
    if Short(u) != 0 then [92, Short(u)]
    else if u < 32 || High(u) || Low(u) then
      [92, 117, HexDigit(u / 4096), HexDigit(u / 256 % 16), HexDigit(u / 16 % 16), HexDigit(u % 16)]
    else [u]
  }

  predicate Paired(s: Text) {
    |s| > 1 && High(s[0]) && Low(s[1])
  }

  /** Surrogate pairs are copied, lone surrogates escaped. */
  function Escape(s: Text): Text {
    if s == [] then []
    else if Paired(s) then [s[0], s[1]] + Escape(s[2..])
    else EscapeUnit(s[0]) + Escape(s[1..])
  }

  function Quote(s: Text): Text {
    [34] + Escape(s) + [34]
  }

  // ---------------------------------------------------------------- key order

  /** Lexicographic order of code units, the default order of `sort`. */
  predicate Less(a: Text, b: Text) {
    if b == [] then false
    else if a == [] then true
    else a[0] < b[0] || (a[0] == b[0] && Less(a[1..], b[1..]))
  }

  datatype Entry = Entry(key: Text, text: Text)

  function Insert(es: seq<Entry>, e: Entry): seq<Entry> {
    if es == [] || Less(e.key, es[0].key) then [e] + es else [es[0]] + Insert(es[1..], e)
  }

  function Sort(es: seq<Entry>): seq<Entry> {
    if es == [] then [] else Insert(Sort(es[1..]), es[0])
  }

  // ---------------------------------------------------------------- the serializer

  function Join(ts: seq<Text>): Text {
    if ts == [] then [] else if |ts| == 1 then ts[0] else ts[0] + [44] + Join(ts[1..])
  }

  function EntryTexts(es: seq<Entry>): seq<Text> {
    if es == [] then [] else [Quote(es[0].key) + [58] + es[0].text] + EntryTexts(es[1..])
  }

  function Canon(impl: Impl, v: Value): Text
    decreases v, 0
  {
    match v
    case Null => [110, 117, 108, 108]
    case Undefined => [110, 117, 108, 108]
    case NonFinite => [110, 117, 108, 108]
    case Bool(b) => if b then [116, 114, 117, 101] else [102, 97, 108, 115, 101]
    case Int(n) => Decimal(n)
    case Str(s) => Quote(s)
    case Date(iso) => if impl.ToolGateway? then [123, 125] else Quote(iso)
    case Arr(items) => [91] + Join(CanonItems(impl, items)) + [93]
    case Obj(fields) => [123] + Join(EntryTexts(Sort(CanonFields(impl, fields)))) + [125]
  }

  function CanonItems(impl: Impl, items: seq<Value>): seq<Text>
    decreases items, 0
  {
    if items == [] then [] else [Canon(impl, items[0])] + CanonItems(impl, items[1..])
  }

  /** The kept fields with their texts; serializing before sorting gives the same entries. */
  function CanonFields(impl: Impl, fields: seq<Field>): seq<Entry>
    decreases fields, 0
  {
    if fields == [] then []
    else
      (if fields[0].value.Undefined? then [] else [Entry(fields[0].key, Canon(impl, fields[0].value))])
      + CanonFields(impl, fields[1..])
  }

  // ---------------------------------------------------------------- meaning

  /** A JSON value as such: objects have distinct keys, and nothing inside is outside JSON. */
  predicate Plain(v: Value)
    decreases v
  {
    match v
    case Undefined => false
    case NonFinite => false
    case Date(_) => false
    case Arr(items) => forall i | 0 <= i < |items| :: Plain(items[i])
    case Obj(fields) => DistinctKeys(fields) && forall i | 0 <= i < |fields| :: Plain(fields[i].value)
    case _ => true
  }

  predicate DistinctKeys(fields: seq<Field>) {
    forall i, j | 0 <= i < j < |fields| :: fields[i].key != fields[j].key
  }

  /** Equal as JSON values: the order of object fields does not matter. */
  ghost predicate Same(v: Value, w: Value)
    decreases v
  {
    match v
    case Arr(items) =>
      && w.Arr? && |items| == |w.items|
      && forall i | 0 <= i < |items| :: Same(items[i], w.items[i])
    case Obj(fields) =>
      && w.Obj? && |fields| == |w.fields|
      && forall i | 0 <= i < |fields| :: HasSame(fields[i], w.fields)
    case _ => v == w
  }

  /** One of the fields has the same key and value. */
  ghost predicate HasSame(f: Field, fields: seq<Field>)
    decreases f
  {
    exists j :: 0 <= j < |fields| && fields[j].key == f.key && Same(f.value, fields[j].value)
  }

  // ---------------------------------------------------------------- scalars read back

  predicate Digit(u: Unit) { 48 <= u <= 57 }

  lemma {:induction false} DigitsAreDigits(n: nat)
    ensures |Digits(n)| > 0 && forall i :: 0 <= i < |Digits(n)| ==> Digit(Digits(n)[i])
  {
    if n >= 10 {
      DigitsAreDigits(n / 10);
    }
  }

  lemma {:induction false} DigitsInjective(n: nat, m: nat)
    requires Digits(n) == Digits(m)
    ensures n == m
  {
    DigitsAreDigits(n / 10);
    DigitsAreDigits(m / 10);
    if n >= 10 && m >= 10 {
      var a, b := Digits(n / 10), Digits(m / 10);
      assert (a + [48 + n % 10])[..|a|] == a && (b + [48 + m % 10])[..|b|] == b;
      assert Digits(n)[|a|] == 48 + n % 10 && Digits(m)[|b|] == 48 + m % 10;
      DigitsInjective(n / 10, m / 10);
    }
  }

  /** A text may be followed by the end, a comma, or a closing bracket. */
  predicate Delim(r: Text) {
    r == [] || r[0] == 44 || r[0] == 93 || r[0] == 125
  }

  lemma {:induction false} SplitConcat(a: Text, b: Text, r: Text, q: Text)
    requires a + r == b + q && |a| == |b|
    ensures a == b && r == q
  {
    assert (a + r)[..|a|] == a && (b + q)[..|a|] == b;
    assert (a + r)[|a|..] == r && (b + q)[|a|..] == q;
  }

  lemma {:induction false} AtBoundary(a: Text, b: Text, r: Text, q: Text)
    requires a + r == b + q
    ensures |a| < |b| ==> |r| > 0 && r[0] == b[|a|]
  {
    if |a| < |b| {
      assert (a + r)[|a|] == (b + q)[|a|];
    }
  }

  lemma {:induction false} DecimalReadable(n: int, m: int, r: Text, q: Text)
    requires Decimal(n) + r == Decimal(m) + q && Delim(r) && Delim(q)
    ensures n == m && r == q
  {
    DigitsAreDigits(if n < 0 then -n else n);
    DigitsAreDigits(if m < 0 then -m else m);
    var a, b := Decimal(n), Decimal(m);
    AtBoundary(a, b, r, q);
    AtBoundary(b, a, q, r);
    SplitConcat(a, b, r, q);
    assert a[0] == b[0];
    if n < 0 {
      assert a[1..] == Digits(-n) && b[1..] == Digits(-m);
      DigitsInjective(-n, -m);
    } else {
      DigitsInjective(n, m);
    }
  }

  lemma {:induction false} HexInjective(u: Unit, v: Unit)
    requires HexDigit(u / 4096) == HexDigit(v / 4096) && HexDigit(u / 256 % 16) == HexDigit(v / 256 % 16)
    requires HexDigit(u / 16 % 16) == HexDigit(v / 16 % 16) && HexDigit(u % 16) == HexDigit(v % 16)
    ensures u == v
  {
    Nibbles(u);
    Nibbles(v);
  }

  lemma {:induction false} Nibbles(u: nat)
    ensures u == u / 4096 * 4096 + u / 256 % 16 * 256 + u / 16 % 16 * 16 + u % 16
  {
    var a := u / 16;
    var b := a / 16;
    assert u / 256 == b && u / 4096 == b / 16;
  }

  lemma {:induction false} EscapeUnitReadable(u: Unit, v: Unit, r: Text, q: Text)
    requires EscapeUnit(u) + r == EscapeUnit(v) + q
    ensures u == v && r == q
  {
    var a, b := EscapeUnit(u), EscapeUnit(v);
    assert (a + r)[0] == a[0] == b[0];
    if |a| > 1 && |b| > 1 {
      assert (a + r)[1] == a[1] == b[1];
    }
    assert |a| == |b|;
    SplitConcat(a, b, r, q);
    if |a| == 6 {
      HexInjective(u, v);
    }
  }

  /** The first unit of an escaped text tells which rule produced it. */
  lemma {:induction false} EscapeHead(s: Text, r: Text)
    ensures var x := Escape(s) + [34] + r;
            if s == [] then x == [34] + r && x[0] == 34
            else if Paired(s) then x == s[..2] + (Escape(s[2..]) + [34] + r) && High(x[0])
            else x == EscapeUnit(s[0]) + (Escape(s[1..]) + [34] + r) && x[0] == EscapeUnit(s[0])[0]
  {
    if s != [] {
      var head, tail := if Paired(s) then s[..2] else EscapeUnit(s[0]), if Paired(s) then s[2..] else s[1..];
      assert Escape(s) == head + Escape(tail) by { assert Paired(s) ==> head == [s[0], s[1]]; }
      Regroup(head, Escape(tail), [34], r);
    }
  }

  lemma {:induction false} Regroup(a: Text, b: Text, c: Text, d: Text)
    ensures (a + b) + c + d == a + (b + c + d)
    ensures a != [] ==> ((a + b) + c + d)[0] == a[0]
  {
  }

  /** No escaped unit starts like a closing quote or a copied pair. */
  lemma {:induction false} EscapeUnitHead(u: Unit)
    ensures EscapeUnit(u)[0] != 34 && !High(EscapeUnit(u)[0])
  {
  }

  /** A quoted string ends at its first unescaped quote. */
  lemma {:induction false} EscapeReadable(s: Text, t: Text, r: Text, q: Text)
    requires Escape(s) + [34] + r == Escape(t) + [34] + q
    ensures s == t && r == q
    decreases |s|
  {
    EscapeHead(s, r);
    EscapeHead(t, q);
    if s != [] { EscapeUnitHead(s[0]); }
    if t != [] { EscapeUnitHead(t[0]); }
    if s == [] {
      SplitConcat([34], [34], r, q);
    } else if Paired(s) {
      var x, y := Escape(s[2..]) + [34] + r, Escape(t[2..]) + [34] + q;
      SplitConcat(s[..2], t[..2], x, y);
      EscapeReadable(s[2..], t[2..], r, q);
      assert s == s[..2] + s[2..] && t == t[..2] + t[2..];
    } else {
      var x, y := Escape(s[1..]) + [34] + r, Escape(t[1..]) + [34] + q;
      EscapeUnitReadable(s[0], t[0], x, y);
      EscapeReadable(s[1..], t[1..], r, q);
      assert s == [s[0]] + s[1..] && t == [t[0]] + t[1..];
    }
  }

  lemma {:induction false} QuoteReadable(s: Text, t: Text, r: Text, q: Text)
    requires Quote(s) + r == Quote(t) + q
    ensures s == t && r == q
  {
    assert (Quote(s) + r)[1..] == Escape(s) + [34] + r;
    assert (Quote(t) + q)[1..] == Escape(t) + [34] + q;
    EscapeReadable(s, t, r, q);
  }

  // ---------------------------------------------------------------- lists read back

  /** Two texts that, each followed by a delimiter, can only coincide entirely. */
  ghost predicate Readable(t: Text, u: Text) {
    forall r, q :: t + r == u + q && Delim(r) && Delim(q) ==> t == u && r == q
  }

  /** A text that cannot be taken for a delimiter. */
  predicate Starts(t: Text) {
    t != [] && !Delim(t)
  }

  ghost predicate AllReadable(ts: seq<Text>, us: seq<Text>) {
    && (forall i :: 0 <= i < |ts| ==> Starts(ts[i]))
    && (forall j :: 0 <= j < |us| ==> Starts(us[j]))
    && (forall i, j :: 0 <= i < |ts| && 0 <= j < |us| ==> Readable(ts[i], us[j]))
  }

  /** What follows the first element of a joined list that is closed by `c`. */
  function Rest(ts: seq<Text>, c: Unit, r: Text): Text
    requires ts != []
  {
    if |ts| == 1 then [c] + r else [44] + (Join(ts[1..]) + [c] + r)
  }

  lemma {:induction false} JoinHead(ts: seq<Text>, c: Unit, r: Text)
    requires ts != []
    ensures Join(ts) + [c] + r == ts[0] + Rest(ts, c, r)
  {
    if |ts| == 1 {
      assert Join(ts) + [c] + r == ts[0] + ([c] + r);
    } else {
      CommaHead(ts[0], Join(ts[1..]), c, r);
    }
  }

  lemma {:induction false} CommaHead(t: Text, j: Text, c: Unit, r: Text)
    ensures t + [44] + j + [c] + r == t + ([44] + (j + [c] + r))
  {
  }

  lemma {:induction false} RestTail(ts: seq<Text>, c: Unit, r: Text)
    requires ts != []
    ensures var x := Rest(ts, c, r);
            && x[0] == (if |ts| == 1 then c else 44)
            && x[1..] == if |ts| == 1 then r else Join(ts[1..]) + [c] + r
  {
  }

  lemma {:induction false} RestDelim(ts: seq<Text>, c: Unit, r: Text)
    requires ts != [] && (c == 93 || c == 125)
    ensures Delim(Rest(ts, c, r))
  {
  }

  lemma {:induction false} TailReadable(ts: seq<Text>, us: seq<Text>)
    requires AllReadable(ts, us) && ts != [] && us != []
    ensures AllReadable(ts[1..], us[1..])
  {
  }

  lemma {:induction false} JoinFirst(ts: seq<Text>, c: Unit, r: Text)
    requires ts != [] ==> Starts(ts[0])
    ensures var x := Join(ts) + [c] + r;
            |x| > 0 && if ts == [] then x == [c] + r else x[0] == ts[0][0] && !Delim(x)
  {
    if ts == [] {
      assert Join(ts) + [c] + r == [c] + r;
    } else {
      JoinHead(ts, c, r);
    }
  }

  /** A closed list determines its elements and what follows it. */
  lemma {:induction false} JoinReadable(ts: seq<Text>, us: seq<Text>, c: Unit, r: Text, q: Text)
    requires c == 93 || c == 125
    requires AllReadable(ts, us)
    requires Join(ts) + [c] + r == Join(us) + [c] + q
    ensures ts == us && r == q
    decreases |ts|
  {
    JoinFirst(ts, c, r);
    JoinFirst(us, c, q);
    if ts == [] {
      SplitConcat([c], [c], r, q);
    } else {
      JoinHead(ts, c, r);
      JoinHead(us, c, q);
      var x, y := Rest(ts, c, r), Rest(us, c, q);
      assert Readable(ts[0], us[0]);
      RestDelim(ts, c, r);
      RestDelim(us, c, q);
      RestTail(ts, c, r);
      RestTail(us, c, q);
      if |ts| > 1 {
        TailReadable(ts, us);
        JoinReadable(ts[1..], us[1..], c, r, q);
      }
      assert ts == [ts[0]] + ts[1..] && us == [us[0]] + us[1..];
    }
  }

  // ---------------------------------------------------------------- values read back

  /** The first unit of a text tells the kind of its value. */
  function Kind(v: Value): nat {
    match v
    case Bool(b) => if b then 116 else 102
    case Int(n) => 45
    case Str(_) => 34
    case Date(_) => 34
    case Arr(_) => 91
    case Obj(_) => 123
    case _ => 110
  }

  lemma {:induction false} CanonHead(impl: Impl, v: Value)
    requires Plain(v)
    ensures var t := Canon(impl, v);
            t != [] && (if v.Int? then t[0] == 45 || Digit(t[0]) else t[0] == Kind(v))
  {
    if v.Int? {
      DigitsAreDigits(if v.n < 0 then -v.n else v.n);
    }
  }

  lemma {:induction false} CanonStarts(impl: Impl, v: Value)
    requires Plain(v)
    ensures Starts(Canon(impl, v))
  {
    CanonHead(impl, v);
  }

  lemma {:induction false} CanonItemsAt(impl: Impl, items: seq<Value>)
    ensures |CanonItems(impl, items)| == |items|
    ensures forall i :: 0 <= i < |items| ==> CanonItems(impl, items)[i] == Canon(impl, items[i])
    decreases |items|
  {
    if items != [] {
      CanonItemsAt(impl, items[1..]);
    }
  }

  lemma {:induction false} EntryTextsAt(es: seq<Entry>)
    ensures |EntryTexts(es)| == |es|
    ensures forall i :: 0 <= i < |es| ==> EntryTexts(es)[i] == Quote(es[i].key) + [58] + es[i].text
  {
    if es != [] {
      EntryTextsAt(es[1..]);
    }
  }

  lemma {:induction false} InsertMembers(es: seq<Entry>, e: Entry)
    ensures forall x :: x in Insert(es, e) <==> x in es || x == e
    ensures |Insert(es, e)| == |es| + 1
  {
    if es != [] && !Less(e.key, es[0].key) {
      InsertMembers(es[1..], e);
      assert es == [es[0]] + es[1..];
    }
  }

  lemma {:induction false} SortMembers(es: seq<Entry>)
    ensures forall x :: x in Sort(es) <==> x in es
    ensures |Sort(es)| == |es|
  {
    if es != [] {
      SortMembers(es[1..]);
      InsertMembers(Sort(es[1..]), es[0]);
      assert es == [es[0]] + es[1..];
    }
  }

  /** On plain fields the entries are the fields with their texts, in order. */
  lemma {:induction false} CanonFieldsAt(impl: Impl, fields: seq<Field>)
    requires forall i :: 0 <= i < |fields| ==> Plain(fields[i].value)
    ensures |CanonFields(impl, fields)| == |fields|
    ensures forall i :: 0 <= i < |fields| ==>
              CanonFields(impl, fields)[i] == Entry(fields[i].key, Canon(impl, fields[i].value))
    decreases |fields|
  {
    if fields != [] {
      assert Plain(fields[0].value);
      CanonFieldsAt(impl, fields[1..]);
    }
  }

  lemma {:induction false} EntryReadable(e: Entry, f: Entry)
    requires Readable(e.text, f.text)
    ensures Readable(Quote(e.key) + [58] + e.text, Quote(f.key) + [58] + f.text)
    ensures Starts(Quote(e.key) + [58] + e.text)
    ensures Quote(e.key) + [58] + e.text == Quote(f.key) + [58] + f.text ==> e == f
  {
    var t, u := Quote(e.key) + [58] + e.text, Quote(f.key) + [58] + f.text;
    forall r, q | t + r == u + q && Delim(r) && Delim(q)
      ensures t == u && r == q && e == f
    {
      assert t + r == Quote(e.key) + ([58] + (e.text + r));
      assert u + q == Quote(f.key) + ([58] + (f.text + q));
      QuoteReadable(e.key, f.key, [58] + (e.text + r), [58] + (f.text + q));
      SplitConcat([58], [58], e.text + r, f.text + q);
    }
    if t == u {
      assert t + [] == u + [] && Delim([]);
    }
    assert t[0] == 34;
  }

  lemma {:induction false} EntriesInjective(es: seq<Entry>, fs: seq<Entry>)
    requires forall i, j :: 0 <= i < |es| && 0 <= j < |fs| ==> Readable(es[i].text, fs[j].text)
    requires EntryTexts(es) == EntryTexts(fs)
    ensures es == fs
  {
    EntryTextsAt(es);
    EntryTextsAt(fs);
    forall i | 0 <= i < |es|
      ensures es[i] == fs[i]
    {
      assert EntryTexts(es)[i] == EntryTexts(fs)[i];
      EntryReadable(es[i], fs[i]);
    }
  }

  /** The text of a plain value ends where the value ends. */
  lemma {:induction false} CanonReadable(impl: Impl, v: Value, w: Value, r: Text, q: Text)
    requires Plain(v) && Plain(w)
    requires Canon(impl, v) + r == Canon(impl, w) + q && Delim(r) && Delim(q)
    ensures Canon(impl, v) == Canon(impl, w) && r == q
    decreases v, 0
  {
    var t, u := Canon(impl, v), Canon(impl, w);
    CanonHead(impl, v);
    CanonHead(impl, w);
    assert (t + r)[0] == t[0] == u[0];
    match v
    case Int(n) => DecimalReadable(n, w.n, r, q);
    case Str(s) => QuoteReadable(s, w.s, r, q);
    case Arr(items) => ArrReadable(impl, items, w.items, r, q);
    case Obj(fields) => ObjReadable(impl, fields, w.fields, r, q);
    case _ => SplitConcat(t, u, r, q);
  }

  lemma {:induction false} PairReadable(impl: Impl, v: Value, w: Value)
    requires Plain(v) && Plain(w)
    ensures Readable(Canon(impl, v), Canon(impl, w))
    decreases v, 1
  {
    forall r, q | Canon(impl, v) + r == Canon(impl, w) + q && Delim(r) && Delim(q)
      ensures Canon(impl, v) == Canon(impl, w) && r == q
    {
      CanonReadable(impl, v, w, r, q);
    }
  }

  lemma {:induction false} ArrReadable(impl: Impl, xs: seq<Value>, ys: seq<Value>, r: Text, q: Text)
    requires Plain(Arr(xs)) && Plain(Arr(ys))
    requires Canon(impl, Arr(xs)) + r == Canon(impl, Arr(ys)) + q
    ensures CanonItems(impl, xs) == CanonItems(impl, ys) && r == q
    decreases xs
  {
    var ts, us := CanonItems(impl, xs), CanonItems(impl, ys);
    CanonItemsAt(impl, xs);
    CanonItemsAt(impl, ys);
    forall i, j | 0 <= i < |xs| && 0 <= j < |ys|
      ensures Readable(ts[i], us[j])
    {
      PairReadable(impl, xs[i], ys[j]);
    }
    forall i | 0 <= i < |xs|
      ensures Starts(ts[i])
    {
      CanonStarts(impl, xs[i]);
    }
    forall j | 0 <= j < |ys|
      ensures Starts(us[j])
    {
      CanonStarts(impl, ys[j]);
    }
    Bracketed(91, ts, us, 93, r, q);
  }

  lemma {:induction false} Bracketed(o: Unit, ts: seq<Text>, us: seq<Text>, c: Unit, r: Text, q: Text)
    requires c == 93 || c == 125
    requires AllReadable(ts, us)
    requires ([o] + Join(ts) + [c]) + r == ([o] + Join(us) + [c]) + q
    ensures ts == us && r == q
  {
    assert ([o] + Join(ts) + [c]) + r == [o] + (Join(ts) + [c] + r);
    assert ([o] + Join(us) + [c]) + q == [o] + (Join(us) + [c] + q);
    SplitConcat([o], [o], Join(ts) + [c] + r, Join(us) + [c] + q);
    JoinReadable(ts, us, c, r, q);
  }

  lemma {:induction false} EntryTextsReadable(es: seq<Entry>, fs: seq<Entry>)
    requires forall i, j :: 0 <= i < |es| && 0 <= j < |fs| ==> Readable(es[i].text, fs[j].text)
    ensures AllReadable(EntryTexts(es), EntryTexts(fs))
  {
    EntryTextsAt(es);
    EntryTextsAt(fs);
    forall i | 0 <= i < |es|
      ensures Starts(EntryTexts(es)[i])
    {
      assert EntryTexts(es)[i][0] == 34;
    }
    forall j | 0 <= j < |fs|
      ensures Starts(EntryTexts(fs)[j])
    {
      assert EntryTexts(fs)[j][0] == 34;
    }
    forall i, j | 0 <= i < |es| && 0 <= j < |fs|
      ensures Readable(EntryTexts(es)[i], EntryTexts(fs)[j])
    {
      EntryReadable(es[i], fs[j]);
    }
  }

  lemma {:induction false} ObjReadable(impl: Impl, f: seq<Field>, g: seq<Field>, r: Text, q: Text)
    requires Plain(Obj(f)) && Plain(Obj(g))
    requires Canon(impl, Obj(f)) + r == Canon(impl, Obj(g)) + q
    ensures Sort(CanonFields(impl, f)) == Sort(CanonFields(impl, g)) && r == q
    decreases f
  {
    var es, fs := Sort(CanonFields(impl, f)), Sort(CanonFields(impl, g));
    FieldsReadable(impl, f, g, es, fs);
    EntryTextsReadable(es, fs);
    Bracketed(123, EntryTexts(es), EntryTexts(fs), 125, r, q);
    EntriesInjective(es, fs);
  }

  lemma {:induction false} FieldsReadable(
    impl: Impl, f: seq<Field>, g: seq<Field>, es: seq<Entry>, fs: seq<Entry>)
    requires Plain(Obj(f)) && Plain(Obj(g))
    requires es == Sort(CanonFields(impl, f)) && fs == Sort(CanonFields(impl, g))
    ensures forall i, j :: 0 <= i < |es| && 0 <= j < |fs| ==> Readable(es[i].text, fs[j].text)
    decreases f, 0
  {
    CanonFieldsAt(impl, f);
    CanonFieldsAt(impl, g);
    SortMembers(CanonFields(impl, f));
    SortMembers(CanonFields(impl, g));
    forall i, j | 0 <= i < |es| && 0 <= j < |fs|
      ensures Readable(es[i].text, fs[j].text)
    {
      assert es[i] in CanonFields(impl, f) && fs[j] in CanonFields(impl, g);
      var a :| 0 <= a < |f| && es[i] == CanonFields(impl, f)[a];
      var b :| 0 <= b < |g| && fs[j] == CanonFields(impl, g)[b];
      PairReadable(impl, f[a].value, g[b].value);
    }
  }

  // ---------------------------------------------------------------- sorting by key

  lemma {:induction false} LessTotal(a: Text, b: Text)
    ensures a == b || Less(a, b) || Less(b, a)
  {
    if a != [] && b != [] {
      LessTotal(a[1..], b[1..]);
      assert a == [a[0]] + a[1..] && b == [b[0]] + b[1..];
    }
  }

  lemma {:induction false} LessTransitive(a: Text, b: Text, c: Text)
    requires Less(a, b) && Less(b, c)
    ensures Less(a, c)
  {
    if a != [] && a[0] == b[0] == c[0] {
      LessTransitive(a[1..], b[1..], c[1..]);
    }
  }

  lemma {:induction false} LessIrreflexive(a: Text)
    ensures !Less(a, a)
  {
    if a != [] {
      LessIrreflexive(a[1..]);
    }
  }

  ghost predicate Ascending(es: seq<Entry>) {
    forall i, j :: 0 <= i < j < |es| ==> Less(es[i].key, es[j].key)
  }

  ghost predicate DistinctEntries(es: seq<Entry>) {
    forall i, j :: 0 <= i < j < |es| ==> es[i].key != es[j].key
  }

  lemma {:induction false} InsertAscends(es: seq<Entry>, e: Entry)
    requires Ascending(es) && forall x :: x in es ==> x.key != e.key
    ensures Ascending(Insert(es, e))
  {
    if es == [] {
    } else if Less(e.key, es[0].key) {
      forall j | 0 <= j < |es|
        ensures Less(e.key, es[j].key)
      {
        if j > 0 { LessTransitive(e.key, es[0].key, es[j].key); }
      }
    } else {
      var rest := Insert(es[1..], e);
      InsertAscends(es[1..], e);
      InsertMembers(es[1..], e);
      LessTotal(e.key, es[0].key);
      assert es[0] in es;
      forall j | 0 <= j < |rest|
        ensures Less(es[0].key, rest[j].key)
      {
        assert rest[j] in rest;
        assert forall x :: x in es[1..] ==> Less(es[0].key, x.key);
      }
    }
  }

  lemma {:induction false} SortAscends(es: seq<Entry>)
    requires DistinctEntries(es)
    ensures Ascending(Sort(es))
  {
    if es != [] {
      SortAscends(es[1..]);
      SortMembers(es[1..]);
      InsertAscends(Sort(es[1..]), es[0]);
    }
  }

  /** An ascending list is determined by its members. */
  lemma {:induction false} AscendingUnique(es: seq<Entry>, fs: seq<Entry>)
    requires Ascending(es) && Ascending(fs) && |es| == |fs|
    requires forall x :: x in es <==> x in fs
    ensures es == fs
  {
    if es != [] {
      SameFirst(es, fs);
      assert es == [es[0]] + es[1..] && fs == [fs[0]] + fs[1..];
      LessIrreflexive(es[0].key);
      forall x
        ensures x in es[1..] <==> x in fs[1..]
      {
        assert es[0] !in es[1..] && fs[0] !in fs[1..];
        assert x in es <==> x == es[0] || x in es[1..];
        assert x in fs <==> x == fs[0] || x in fs[1..];
      }
      AscendingUnique(es[1..], fs[1..]);
    }
  }

  lemma {:induction false} SameFirst(es: seq<Entry>, fs: seq<Entry>)
    requires Ascending(es) && Ascending(fs) && es != [] && fs != []
    requires forall x :: x in es <==> x in fs
    ensures es[0] == fs[0]
  {
    assert es[0] in fs && fs[0] in es;
    var i :| 0 <= i < |fs| && fs[i] == es[0];
    var j :| 0 <= j < |es| && es[j] == fs[0];
    if i > 0 && j > 0 {
      LessTransitive(es[0].key, es[j].key, fs[i].key);
      LessIrreflexive(es[0].key);
    }
  }

  // ---------------------------------------------------------------- what the text determines

  /** Equal texts only for values that are equal as JSON. */
  lemma {:induction false} CanonInjective(impl: Impl, v: Value, w: Value)
    requires Plain(v) && Plain(w) && Canon(impl, v) == Canon(impl, w)
    ensures Same(v, w)
    decreases v
  {
    CanonHead(impl, v);
    CanonHead(impl, w);
    match v
    case Int(n) => DecimalReadable(n, w.n, [], []);
    case Str(s) => QuoteReadable(s, w.s, [], []);
    case Arr(items) =>
      ArrReadable(impl, items, w.items, [], []);
      CanonItemsAt(impl, items);
      CanonItemsAt(impl, w.items);
      forall i | 0 <= i < |items|
        ensures Same(items[i], w.items[i])
      {
        assert CanonItems(impl, items)[i] == CanonItems(impl, w.items)[i];
        CanonInjective(impl, items[i], w.items[i]);
      }
    case Obj(fields) =>
      ObjInjective(impl, fields, w.fields);
    case _ =>
  }

  lemma {:induction false} ObjInjective(impl: Impl, f: seq<Field>, g: seq<Field>)
    requires Plain(Obj(f)) && Plain(Obj(g)) && Canon(impl, Obj(f)) == Canon(impl, Obj(g))
    ensures |f| == |g|
    ensures forall i :: 0 <= i < |f| ==> HasSame(f[i], g)
    decreases f
  {
    ObjReadable(impl, f, g, [], []);
    CanonFieldsAt(impl, f);
    CanonFieldsAt(impl, g);
    SortMembers(CanonFields(impl, f));
    SortMembers(CanonFields(impl, g));
    forall i | 0 <= i < |f|
      ensures HasSame(f[i], g)
    {
      var e := CanonFields(impl, f)[i];
      assert e in CanonFields(impl, g);
      var j :| 0 <= j < |g| && CanonFields(impl, g)[j] == e;
      CanonInjective(impl, f[i].value, g[j].value);
    }
  }

  /** Values that are equal as JSON have one text, whatever the order of their fields. */
  lemma {:induction false} CanonOrderFree(impl: Impl, v: Value, w: Value)
    requires Plain(v) && Plain(w) && Same(v, w)
    ensures Canon(impl, v) == Canon(impl, w)
    decreases v
  {
    match v
    case Arr(items) =>
      CanonItemsAt(impl, items);
      CanonItemsAt(impl, w.items);
      forall i | 0 <= i < |items|
        ensures Canon(impl, items[i]) == Canon(impl, w.items[i])
      {
        CanonOrderFree(impl, items[i], w.items[i]);
      }
      assert CanonItems(impl, items) == CanonItems(impl, w.items);
    case Obj(fields) =>
      ObjOrderFree(impl, fields, w.fields);
    case _ =>
  }

  lemma {:induction false} ObjOrderFree(impl: Impl, f: seq<Field>, g: seq<Field>)
    requires Plain(Obj(f)) && Plain(Obj(g)) && Same(Obj(f), Obj(g))
    ensures Sort(CanonFields(impl, f)) == Sort(CanonFields(impl, g))
    decreases f
  {
    var es, fs := CanonFields(impl, f), CanonFields(impl, g);
    CanonFieldsAt(impl, f);
    CanonFieldsAt(impl, g);
    forall i | 0 <= i < |f|
      ensures es[i] in fs
    {
      assert HasSame(f[i], g);
      var j :| 0 <= j < |g| && g[j].key == f[i].key && Same(f[i].value, g[j].value);
      CanonOrderFree(impl, f[i].value, g[j].value);
      assert es[i] == fs[j];
    }
    SameMembers(es, fs);
    SortMembers(es);
    SortMembers(fs);
    SortAscends(es);
    SortAscends(fs);
    AscendingUnique(Sort(es), Sort(fs));
  }

  function Members(es: seq<Entry>): set<Entry> {
    set e | e in es
  }

  lemma {:induction false} MembersCount(es: seq<Entry>)
    requires DistinctEntries(es)
    ensures |Members(es)| == |es|
  {
    if es != [] {
      MembersCount(es[1..]);
      assert es == [es[0]] + es[1..];
      assert Members(es) == {es[0]} + Members(es[1..]);
    }
  }

  lemma {:induction false} SubsetOfEqualSize<T>(a: set<T>, b: set<T>)
    requires a <= b && |a| == |b|
    ensures a == b
  {
    assert b == a + (b - a);
  }

  lemma {:induction false} SameMembers(es: seq<Entry>, fs: seq<Entry>)
    requires DistinctEntries(es) && DistinctEntries(fs) && |es| == |fs|
    requires forall i :: 0 <= i < |es| ==> es[i] in fs
    ensures forall x :: x in es <==> x in fs
  {
    MembersCount(es);
    MembersCount(fs);
    SubsetOfEqualSize(Members(es), Members(fs));
    assert forall x :: x in es <==> x in Members(es);
    assert forall x :: x in fs <==> x in Members(fs);
  }

  /** The canonical text identifies plain values exactly up to the order of object fields. */
  lemma {:induction false} CanonFaithful(impl: Impl, v: Value, w: Value)
    requires Plain(v) && Plain(w)
    ensures Canon(impl, v) == Canon(impl, w) <==> Same(v, w)
  {
    if Canon(impl, v) == Canon(impl, w) {
      CanonInjective(impl, v, w);
    } else if Same(v, w) {
      CanonOrderFree(impl, v, w);
    }
  }

  // ---------------------------------------------------------------- values outside JSON

  /** The JSON value that a serializer takes an arbitrary value for. */
  function Normal(impl: Impl, v: Value): Value
    decreases v
  {
    match v
    case Undefined => Null
    case NonFinite => Null
    case Date(iso) => if impl.ToolGateway? then Obj([]) else Str(iso)
    case Arr(items) => Arr(seq(|items|, i requires 0 <= i < |items| => Normal(impl, items[i])))
    case Obj(fields) => Obj(NormalFields(impl, fields))
    case _ => v
  }

  function NormalFields(impl: Impl, fields: seq<Field>): seq<Field>
    decreases fields
  {
    if fields == [] then []
    else
      (if fields[0].value.Undefined? then [] else [Field(fields[0].key, Normal(impl, fields[0].value))])
      + NormalFields(impl, fields[1..])
  }

  /** Objects have distinct keys, as JavaScript objects do. */
  predicate Object(v: Value)
    decreases v
  {
    match v
    case Arr(items) => forall i | 0 <= i < |items| :: Object(items[i])
    case Obj(fields) => DistinctKeys(fields) && forall i | 0 <= i < |fields| :: Object(fields[i].value)
    case _ => true
  }

  lemma {:induction false} NormalIsPlain(impl: Impl, v: Value)
    requires Object(v)
    ensures Plain(Normal(impl, v)) && Canon(impl, Normal(impl, v)) == Canon(impl, v)
    decreases v, 1
  {
    match v
    case Arr(items) =>
      var ns := Normal(impl, v).items;
      forall i | 0 <= i < |items|
        ensures Plain(ns[i]) && Canon(impl, ns[i]) == Canon(impl, items[i])
      {
        NormalIsPlain(impl, items[i]);
      }
      CanonItemsAt(impl, items);
      CanonItemsAt(impl, ns);
      assert CanonItems(impl, items) == CanonItems(impl, ns);
    case Obj(fields) =>
      NormalKeys(impl, fields);
      NormalFieldsPlain(impl, fields);
    case _ =>
  }

  lemma {:induction false} NormalFieldsPlain(impl: Impl, fields: seq<Field>)
    requires forall i :: 0 <= i < |fields| ==> Object(fields[i].value)
    ensures var ns := NormalFields(impl, fields);
            && (forall i :: 0 <= i < |ns| ==> Plain(ns[i].value))
            && CanonFields(impl, ns) == CanonFields(impl, fields)
    decreases fields, 0
  {
    if fields != [] {
      var ns := NormalFields(impl, fields[1..]);
      NormalFieldsPlain(impl, fields[1..]);
      assert Object(fields[0].value);
      NormalIsPlain(impl, fields[0].value);
      if fields[0].value.Undefined? {
        assert NormalFields(impl, fields) == ns;
      } else {
        var n := Field(fields[0].key, Normal(impl, fields[0].value));
        CanonCons(impl, n, ns);
        PlainCons(n, ns);
        assert NormalFields(impl, fields) == [n] + ns;
      }
    }
  }

  lemma {:induction false} PlainCons(n: Field, ns: seq<Field>)
    requires Plain(n.value) && forall i :: 0 <= i < |ns| ==> Plain(ns[i].value)
    ensures forall i :: 0 <= i < |[n] + ns| ==> Plain(([n] + ns)[i].value)
  {
  }

  function Keys(fields: seq<Field>): set<Text> {
    set f | f in fields :: f.key
  }

  lemma {:induction false} KeysCons(f: Field, rest: seq<Field>)
    ensures Keys([f] + rest) == {f.key} + Keys(rest)
  {
    assert forall x :: x in [f] + rest <==> x == f || x in rest;
  }

  lemma {:induction false} DistinctCons(f: Field, rest: seq<Field>)
    requires DistinctKeys(rest) && f.key !in Keys(rest)
    ensures DistinctKeys([f] + rest)
  {
    var all := [f] + rest;
    forall i, j | 0 <= i < j < |all|
      ensures all[i].key != all[j].key
    {
      assert rest[j - 1] in rest && all[j] == rest[j - 1];
    }
  }

  lemma {:induction false} DistinctTail(fields: seq<Field>)
    requires DistinctKeys(fields) && fields != []
    ensures DistinctKeys(fields[1..]) && fields[0].key !in Keys(fields[1..])
  {
    forall f | f in fields[1..]
      ensures f.key != fields[0].key
    {
      var k :| 0 <= k < |fields[1..]| && fields[1..][k] == f;
      assert fields[k + 1] == f;
    }
  }

  lemma {:induction false} NormalKeys(impl: Impl, fields: seq<Field>)
    requires DistinctKeys(fields)
    ensures DistinctKeys(NormalFields(impl, fields)) && Keys(NormalFields(impl, fields)) <= Keys(fields)
    decreases fields, 0
  {
    if fields != [] {
      var rest := fields[1..];
      assert fields == [fields[0]] + rest;
      KeysCons(fields[0], rest);
      DistinctTail(fields);
      NormalKeys(impl, rest);
      if !fields[0].value.Undefined? {
        var n := Field(fields[0].key, Normal(impl, fields[0].value));
        KeysCons(n, NormalFields(impl, rest));
        DistinctCons(n, NormalFields(impl, rest));
      } else {
        assert NormalFields(impl, fields) == NormalFields(impl, rest);
      }
    }
  }

  lemma {:induction false} CanonCons(impl: Impl, n: Field, ns: seq<Field>)
    requires !n.value.Undefined?
    ensures CanonFields(impl, [n] + ns) == [Entry(n.key, Canon(impl, n.value))] + CanonFields(impl, ns)
  {
    assert ([n] + ns)[1..] == ns;
  }

  /** Which arbitrary values share a text, and when two serializers agree: exactly when they
      take their arguments for the same JSON value. */
  lemma {:induction false} CanonExact(impl: Impl, v: Value, impl': Impl, w: Value)
    requires Object(v) && Object(w)
    ensures Canon(impl, v) == Canon(impl', w) <==> Same(Normal(impl, v), Normal(impl', w))
  {
    NormalIsPlain(impl, v);
    NormalIsPlain(impl', w);
    PlainAgree(impl', impl, Normal(impl', w));
    CanonFaithful(impl, Normal(impl, v), Normal(impl', w));
  }

  /** The three implementations print one text for every plain value. */
  lemma {:induction false} PlainAgree(impl: Impl, impl': Impl, v: Value)
    requires Plain(v)
    ensures Canon(impl, v) == Canon(impl', v)
    decreases v
  {
    match v
    case Arr(items) =>
      CanonItemsAt(impl, items);
      CanonItemsAt(impl', items);
      forall i | 0 <= i < |items|
        ensures Canon(impl, items[i]) == Canon(impl', items[i])
      {
        PlainAgree(impl, impl', items[i]);
      }
      assert CanonItems(impl, items) == CanonItems(impl', items);
    case Obj(fields) =>
      CanonFieldsAt(impl, fields);
      CanonFieldsAt(impl', fields);
      forall i | 0 <= i < |fields|
        ensures Canon(impl, fields[i].value) == Canon(impl', fields[i].value)
      {
        PlainAgree(impl, impl', fields[i].value);
      }
      assert CanonFields(impl, fields) == CanonFields(impl', fields);
    case _ =>
  }

  /** Dates tell the serializers apart: the tool gateway prints all of them alike, the others by
      their time and no two alike. */
  lemma {:induction false} DatesDisagree(impl: Impl, d: Text, e: Text)
    requires impl != ToolGateway
    ensures Canon(ToolGateway, Date(d)) == Canon(ToolGateway, Date(e)) != Canon(impl, Date(d))
    ensures Canon(impl, Date(d)) == Canon(impl, Date(e)) <==> d == e
  {
    assert Canon(impl, Date(d))[0] == 34;
    CanonFaithful(impl, Str(d), Str(e));
  }
}
