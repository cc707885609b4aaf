/** A reader of JSON text, after RFC 8259 (values in section 3, objects in 4, arrays in 5, integers
    in 6, strings in 7), for texts without insignificant white space, and what it makes of the
    canonical texts. The reader knows nothing of how they are printed. */
module JsonReader {
  import opened Canonical
  import opened Shared

  // ---------------------------------------------------------------- scalars

  /** The literals `null`, `true` and `false`. */
  const NULL: Text := [0x6E, 0x75, 0x6C, 0x6C]
  const TRUE: Text := [0x74, 0x72, 0x75, 0x65]
  const FALSE: Text := [0x66, 0x61, 0x6C, 0x73, 0x65]

  predicate Begins(t: Text, name: Text) {
    |name| <= |t| && t[..|name|] == name
  }

  predicate IsDigit(u: Unit) {
    0x30 <= u <= 0x39
  }

  /** As many digits as there are, appended to the number read so far. */
  function ReadDigits(t: Text, n: nat): (nat, Text) {
    if t != [] && IsDigit(t[0]) then ReadDigits(t[1..], 10 * n + (t[0] - 0x30)) else (n, t)
  }

  /** An integer: no leading zero, and a minus sign at most. */
  function ReadNatural(t: Text): Option<(nat, Text)> {
    if t == [] || !IsDigit(t[0]) then None
    else if t[0] == 0x30 then Some((0, t[1..]))
    else Some(ReadDigits(t, 0))
  }

  function ReadInteger(t: Text): Option<(int, Text)> {
    if t != [] && t[0] == 0x2D then
      var n := ReadNatural(t[1..]);
      if n == None then None else Some((0 - n.value.0, n.value.1))
    else
      var n := ReadNatural(t);
      if n == None then None else Some((n.value.0, n.value.1))
  }

  function HexValue(u: Unit): Option<nat> {
    if 0x30 <= u <= 0x39 then Some(u - 0x30)
    else if 0x61 <= u <= 0x66 then Some(u - 0x61 + 10)
    else if 0x41 <= u <= 0x46 then Some(u - 0x41 + 10)
    else None
  }

  /** Four hexadecimal digits. */
  function ReadHex(t: Text): Option<Unit> {
    if |t| < 4 then None
    else
      var a, b, c, d := HexValue(t[0]), HexValue(t[1]), HexValue(t[2]), HexValue(t[3]);
      if a == None || b == None || c == None || d == None then None
      else
        var u := a.value * 4096 + b.value * 256 + c.value * 16 + d.value;
        if u < 0x10000 then Some(u) else None
  }

  /** What a backslash and one more character stand for. */
  function Unescape(u: Unit): Option<Unit> {
    if u == 0x22 || u == 0x5C || u == 0x2F then Some(u)
    else if u == 0x62 then Some(8)
    else if u == 0x66 then Some(12)
    else if u == 0x6E then Some(10)
    else if u == 0x72 then Some(13)
    else if u == 0x74 then Some(9)
    else None
  }

  function Prepend(u: Unit, read: Option<(Text, Text)>): Option<(Text, Text)> {
    if read == None then None else Some(([u] + read.value.0, read.value.1))
  }

  /** The rest of a string after its opening quote, up to its closing one. */
  function ReadChars(t: Text): (read: Option<(Text, Text)>)
    ensures read.Some? ==> |read.value.1| < |t|
  {
    if t == [] || t[0] < 0x20 then None
    else if t[0] == 0x22 then Some(([], t[1..]))
    else if t[0] != 0x5C then Prepend(t[0], ReadChars(t[1..]))
    else if |t| < 2 then None
    else if t[1] == 0x75 then
      var u := ReadHex(t[2..]);
      if u == None then None else Prepend(u.value, ReadChars(t[6..]))
    else
      var u := Unescape(t[1]);
      if u == None then None else Prepend(u.value, ReadChars(t[2..]))
  }

  // ---------------------------------------------------------------- values

  function ReadValue(t: Text): (read: Option<(Value, Text)>)
    ensures read.Some? ==> |read.value.1| < |t|
    decreases |t|, 0
  {
    if t == [] then None
    else if Begins(t, NULL) then Some((Null, t[4..]))
    else if Begins(t, TRUE) then Some((Bool(true), t[4..]))
    else if Begins(t, FALSE) then Some((Bool(false), t[5..]))
    else if t[0] == 0x22 then
      var s := ReadChars(t[1..]);
      if s == None then None else Some((Str(s.value.0), s.value.1))
    else if t[0] == 0x5B then
      if |t| > 1 && t[1] == 0x5D then Some((Arr([]), t[2..]))
      else
        var items := ReadItems(t[1..]);
        if items == None then None else Some((Arr(items.value.0), items.value.1))
    else if t[0] == 0x7B then
      if |t| > 1 && t[1] == 0x7D then Some((Obj([]), t[2..]))
      else
        var fields := ReadMembers(t[1..]);
        if fields == None then None else Some((Obj(fields.value.0), fields.value.1))
    else
      var n := ReadInteger(t);
      if n == None || |n.value.1| >= |t| then None else Some((Int(n.value.0), n.value.1))
  }

  /** Values separated by commas, up to the closing bracket. */
  function ReadItems(t: Text): (read: Option<(seq<Value>, Text)>)
    ensures read.Some? ==> |read.value.1| < |t|
    decreases |t|, 1
  {
    var v := ReadValue(t);
    if v == None || v.value.1 == [] then None
    else
      var r := v.value.1;
      if r[0] == 0x5D then Some(([v.value.0], r[1..]))
      else if r[0] == 0x2C then
        var rest := ReadItems(r[1..]);
        if rest == None then None else Some(([v.value.0] + rest.value.0, rest.value.1))
      else None
  }

  /** Names and values separated by commas, up to the closing brace. */
  function ReadMembers(t: Text): (read: Option<(seq<Field>, Text)>)
    ensures read.Some? ==> |read.value.1| < |t|
    decreases |t|, 1
  {
    if t == [] || t[0] != 0x22 then None
    else
      var k := ReadChars(t[1..]);
      if k == None || k.value.1 == [] || k.value.1[0] != 0x3A then None
      else
        var v := ReadValue(k.value.1[1..]);
        if v == None || v.value.1 == [] then None
        else
          var f, r := Field(k.value.0, v.value.0), v.value.1;
          if r[0] == 0x7D then Some(([f], r[1..]))
          else if r[0] == 0x2C then
            var rest := ReadMembers(r[1..]);
            if rest == None then None else Some(([f] + rest.value.0, rest.value.1))
          else None
  }

  // ---------------------------------------------------------------- order of keys

  /** The first code unit in which they differ is smaller, or `a` is cut short. */
  predicate KeyBefore(a: Text, b: Text) {
    exists p: nat :: p <= |a| && p < |b| && a[..p] == b[..p] && (p == |a| || a[p] < b[p])
  }

  /** The keys of every object in the value ascend. */
  ghost predicate KeysAscend(v: Value)
    decreases v
  {
    match v
    case Arr(items) => forall i | 0 <= i < |items| :: KeysAscend(items[i])
    case Obj(fields) =>
      && (forall i, j | 0 <= i < j < |fields| :: KeyBefore(fields[i].key, fields[j].key))
      && (forall i | 0 <= i < |fields| :: KeysAscend(fields[i].value))
    case _ => true
  }

  lemma {:induction false} LessIsBefore(a: Text, b: Text)
    requires Less(a, b)
    ensures KeyBefore(a, b)
  {
    if a == [] {
      assert a[..0] == b[..0];
    } else if a[0] == b[0] {
      LessIsBefore(a[1..], b[1..]);
      var x, y := a[1..], b[1..];
      var p: nat :| p <= |x| && p < |y| && x[..p] == y[..p] && (p == |x| || x[p] < y[p]);
      assert a[..p + 1] == [a[0]] + x[..p] && b[..p + 1] == [b[0]] + y[..p];
    } else {
      assert a[..0] == b[..0];
    }
  }

  // ---------------------------------------------------------------- scalars are read back

  function Power10(k: nat): nat {
    if k == 0 then 1 else 10 * Power10(k - 1)
  }

  lemma {:induction false} DigitThen(d: nat, t: Text, k: nat)
    requires d < 10
    ensures ReadDigits([48 + d] + t, k) == ReadDigits(t, 10 * k + d)
  {
    assert ([48 + d] + t)[1..] == t;
  }

  lemma {:induction false} DigitsRead(n: nat, t: Text, m: nat)
    ensures ReadDigits(Digits(n) + t, m) == ReadDigits(t, m * Power10(|Digits(n)|) + n)
  {
    if n < 10 {
      DigitThen(n, t, m);
      assert Power10(1) == 10 * Power10(0);
    } else {
      var q, d := n / 10, n % 10;
      assert Digits(n) + t == Digits(q) + ([48 + d] + t);
      DigitsRead(q, [48 + d] + t, m);
      DigitThen(d, t, m * Power10(|Digits(q)|) + q);
      Shifted(m, Power10(|Digits(q)|), q, n);
    }
  }

  lemma {:induction false} Shifted(m: nat, p: nat, q: nat, n: nat)
    requires q == n / 10
    ensures 10 * (m * p + q) + n % 10 == m * (10 * p) + n
  {
  }

  lemma {:induction false} NoDigitAhead(t: Text, n: nat)
    requires Delim(t)
    ensures ReadDigits(t, n) == (n, t)
  {
  }

  lemma {:induction false} DigitsHead(n: nat)
    ensures Digits(n) != [] && IsDigit(Digits(n)[0]) && (Digits(n)[0] == 0x30 <==> n == 0)
  {
    if n >= 10 {
      DigitsHead(n / 10);
    }
  }

  lemma {:induction false} NaturalRead(n: nat, t: Text)
    requires Delim(t)
    ensures ReadNatural(Digits(n) + t) == Some((n, t))
  {
    DigitsHead(n);
    if n == 0 {
      assert Digits(0) + t == [0x30] + t && ([0x30] + t)[1..] == t;
    } else {
      DigitsRead(n, t, 0);
      NoDigitAhead(t, n);
    }
  }

  lemma {:induction false} IntegerRead(n: int, t: Text)
    requires Delim(t)
    ensures ReadInteger(Decimal(n) + t) == Some((n, t))
  {
    if n < 0 {
      assert Decimal(n) + t == [0x2D] + (Digits(-n) + t);
      NaturalRead(-n, t);
    } else {
      DigitsHead(n);
      NaturalRead(n, t);
    }
  }

  lemma {:induction false} HexRead(d: nat)
    requires d < 16
    ensures HexValue(HexDigit(d)) == Some(d)
  {
  }

  lemma {:induction false} UnitRead(u: Unit, t: Text)
    ensures ReadChars(EscapeUnit(u) + t) == Prepend(u, ReadChars(t))
  {
    var e := EscapeUnit(u);
    if |e| == 1 {
      assert (e + t)[1..] == t;
    } else if |e| == 2 {
      assert (e + t)[2..] == t;
    } else {
      HexRead(u / 4096);
      HexRead(u / 256 % 16);
      HexRead(u / 16 % 16);
      HexRead(u % 16);
      Nibbles(u);
      assert (e + t)[2..][..4] == e[2..] && (e + t)[6..] == t;
      assert ReadHex((e + t)[2..]) == Some(u);
    }
  }

  lemma {:induction false} PairRead(u: Unit, v: Unit, t: Text)
    requires High(u) && Low(v)
    ensures ReadChars([u, v] + t) == Prepend(u, Prepend(v, ReadChars(t)))
  {
    assert ([u, v] + t)[1..] == [v] + t && ([v] + t)[1..] == t;
  }

  lemma {:induction false} UnitThen(u: Unit, t: Text, s: Text, r: Text)
    requires ReadChars(t) == Some((s, r))
    ensures ReadChars(EscapeUnit(u) + t) == Some(([u] + s, r))
  {
    UnitRead(u, t);
  }

  lemma {:induction false} PairThen(u: Unit, v: Unit, t: Text, s: Text, r: Text)
    requires High(u) && Low(v) && ReadChars(t) == Some((s, r))
    ensures ReadChars([u, v] + t) == Some(([u, v] + s, r))
  {
    PairRead(u, v, t);
    assert [u] + ([v] + s) == [u, v] + s;
  }

  lemma {:induction false} CharsRead(s: Text, r: Text)
    ensures ReadChars(Escape(s) + [34] + r) == Some((s, r))
    decreases |s|
  {
    EscapeHead(s, r);
    if s == [] {
      assert ([34] + r)[1..] == r;
    } else if Paired(s) {
      CharsRead(s[2..], r);
      PairThen(s[0], s[1], Escape(s[2..]) + [34] + r, s[2..], r);
      assert s[..2] == [s[0], s[1]] && s == [s[0], s[1]] + s[2..];
    } else {
      CharsRead(s[1..], r);
      UnitThen(s[0], Escape(s[1..]) + [34] + r, s[1..], r);
      assert s == [s[0]] + s[1..];
    }
  }

  /** A code unit stands for itself wherever a string may hold it as it is: only quotes,
      backslashes, controls and lone surrogates are escaped, with two characters where there is
      such an escape, and otherwise with four small hexadecimal digits. */
  lemma {:induction false} EscapedExactly(u: Unit)
    ensures var e := EscapeUnit(u);
            && (e == [u] <==> u >= 0x20 && u != 0x22 && u != 0x5C && !(0xD800 <= u < 0xE000))
            && (e != [u] ==> e[0] == 0x5C)
            && (|e| == 2 <==> u in {8, 9, 10, 12, 13, 0x22, 0x5C})
            && (|e| != 1 && |e| != 2 ==>
                  && |e| == 6 && e[..2] == [0x5C, 0x75]
                  && forall k :: 2 <= k < 6 ==> IsDigit(e[k]) || 0x61 <= e[k] <= 0x66)
  {
  }

  lemma {:induction false} PairsAreCopied(u: Unit, v: Unit, s: Text)
    requires 0xD800 <= u < 0xDC00 <= v < 0xE000
    ensures Escape([u, v] + s) == [u, v] + Escape(s)
  {
    assert ([u, v] + s)[2..] == s;
  }

  /** Only negative numbers have a sign. */
  lemma {:induction false} SignExactly(n: int)
    ensures Decimal(n) != [] && (Decimal(n)[0] == 0x2D <==> n < 0)
  {
    DigitsHead(if n < 0 then -n else n);
  }

  // ---------------------------------------------------------------- whole texts are read back

  /** The text of a plain value, up to a delimiter, is read as that value, with its keys in order. */
  lemma {:induction false} PlainRead(impl: Impl, v: Value, r: Text) returns (u: Value)
    requires Plain(v) && Delim(r)
    ensures ReadValue(Canon(impl, v) + r) == Some((u, r)) && Same(u, v) && KeysAscend(u)
    decreases v, 1
  {
    match v
    case Null => u := v; LiteralRead(NULL, r);
    case Bool(b) => u := v; LiteralRead(if b then TRUE else FALSE, r);
    case Int(n) => u := v; IntRead(n, r);
    case Str(s) => u := v; StringRead(s, r);
    case Arr(items) => u := ArrayRead(impl, items, r);
    case Obj(fields) => u := ObjectRead(impl, fields, r);
  }

  lemma {:induction false} LiteralRead(name: Text, r: Text)
    requires name == NULL || name == TRUE || name == FALSE
    ensures ReadValue(name + r) == Some((if name == NULL then Null else Bool(name == TRUE), r))
  {
    var t := name + r;
    assert t[..|name|] == name && t[|name|..] == r;
    assert t[0] == name[0];
    if Begins(t, NULL) { assert t[..4][0] == NULL[0]; }
    if Begins(t, TRUE) { assert t[..4][0] == TRUE[0]; }
  }

  lemma {:induction false} NoLiteral(t: Text)
    requires t != [] && t[0] != NULL[0] && t[0] != TRUE[0] && t[0] != FALSE[0]
    ensures !Begins(t, NULL) && !Begins(t, TRUE) && !Begins(t, FALSE)
  {
    if |t| >= 4 { assert t[..4][0] == t[0]; }
    if |t| >= 5 { assert t[..5][0] == t[0]; }
  }

  lemma {:induction false} IntRead(n: int, r: Text)
    requires Delim(r)
    ensures ReadValue(Decimal(n) + r) == Some((Int(n), r))
  {
    DigitsHead(if n < 0 then -n else n);
    var t := Decimal(n) + r;
    assert t[0] == Decimal(n)[0] && |r| < |t|;
    NoLiteral(t);
    IntegerRead(n, r);
  }

  lemma {:induction false} StringRead(s: Text, r: Text)
    ensures ReadValue(Quote(s) + r) == Some((Str(s), r))
  {
    var t := Quote(s) + r;
    NoLiteral(t);
    assert t[1..] == Escape(s) + [34] + r;
    CharsRead(s, r);
  }

  lemma {:induction false} ArrayRead(impl: Impl, items: seq<Value>, r: Text) returns (u: Value)
    requires Plain(Arr(items))
    ensures ReadValue(Canon(impl, Arr(items)) + r) == Some((u, r)) && Same(u, Arr(items)) && KeysAscend(u)
    decreases items, 2
  {
    var ts := CanonItems(impl, items);
    var t := Canon(impl, Arr(items)) + r;
    assert t == [0x5B] + (Join(ts) + [93] + r);
    NoLiteral(t);
    if items == [] {
      assert t == [0x5B, 0x5D] + r && t[2..] == r;
      u := Arr([]);
    } else {
      CanonStarts(impl, items[0]);
      JoinFirst(ts, 93, r);
      assert t[1..] == Join(ts) + [93] + r;
      var us := ItemsRead(impl, items, r);
      u := Arr(us);
    }
  }

  lemma {:induction false} ItemsRead(impl: Impl, items: seq<Value>, r: Text) returns (us: seq<Value>)
    requires items != [] && forall i :: 0 <= i < |items| ==> Plain(items[i])
    ensures ReadItems(Join(CanonItems(impl, items)) + [93] + r) == Some((us, r))
    ensures |us| == |items| && forall i :: 0 <= i < |us| ==> Same(us[i], items[i]) && KeysAscend(us[i])
    decreases items, 1
  {
    var ts := CanonItems(impl, items);
    var t, x := Join(ts) + [93] + r, Rest(ts, 93, r);
    CanonItemsAt(impl, items);
    JoinHead(ts, 93, r);
    RestDelim(ts, 93, r);
    RestTail(ts, 93, r);
    assert Plain(items[0]);
    var u := PlainRead(impl, items[0], x);
    if |items| == 1 {
      us := [u];
    } else {
      var rest := ItemsRead(impl, items[1..], r);
      us := [u] + rest;
      assert forall i :: 1 <= i < |items| ==> items[i] == items[1..][i - 1];
    }
  }

  /** The entry comes from one of the fields. */
  ghost predicate FromField(impl: Impl, e: Entry, fields: seq<Field>) {
    exists j :: 0 <= j < |fields| && fields[j].key == e.key && e.text == Canon(impl, fields[j].value)
  }

  ghost predicate FromFields(impl: Impl, es: seq<Entry>, fields: seq<Field>) {
    forall i :: 0 <= i < |es| ==> FromField(impl, es[i], fields)
  }

  lemma {:induction false} FieldOf(impl: Impl, e: Entry, fields: seq<Field>) returns (j: nat)
    requires Plain(Obj(fields)) && FromField(impl, e, fields)
    ensures j < |fields| && fields[j].key == e.key && e.text == Canon(impl, fields[j].value) && Plain(fields[j].value)
  {
    j :| 0 <= j < |fields| && fields[j].key == e.key && e.text == Canon(impl, fields[j].value);
  }

  /** The field read back is one of those that were printed. */
  ghost predicate ReadFrom(f: Field, fields: seq<Field>) {
    KeysAscend(f.value) && HasSame(f, fields)
  }

  lemma {:induction false} ObjectRead(impl: Impl, fields: seq<Field>, r: Text) returns (u: Value)
    requires Plain(Obj(fields))
    ensures ReadValue(Canon(impl, Obj(fields)) + r) == Some((u, r)) && Same(u, Obj(fields)) && KeysAscend(u)
    decreases fields, 2
  {
    var es := Sort(CanonFields(impl, fields));
    EntriesOf(impl, fields, es);
    ObjectText(impl, fields, es, r);
    if es == [] {
      EmptyObject(r);
      u := Obj([]);
    } else {
      var us := MembersRead(impl, fields, es, r);
      u := Obj(us);
      MembersHead(es, r);
      ObjectFrom([0x7B] + (Join(EntryTexts(es)) + [0x7D] + r), us, r);
      ObjectOf(es, us, fields);
    }
  }

  lemma {:induction false} ObjectText(impl: Impl, fields: seq<Field>, es: seq<Entry>, r: Text)
    requires es == Sort(CanonFields(impl, fields))
    ensures Canon(impl, Obj(fields)) + r == [0x7B] + (Join(EntryTexts(es)) + [0x7D] + r)
  {
    var j := Join(EntryTexts(es));
    assert Canon(impl, Obj(fields)) == [0x7B] + j + [0x7D];
  }

  lemma {:induction false} EmptyObject(r: Text)
    ensures ReadValue([0x7B] + (Join(EntryTexts([])) + [0x7D] + r)) == Some((Obj([]), r))
  {
    var t := [0x7B] + (Join(EntryTexts([])) + [0x7D] + r);
    assert t == [0x7B, 0x7D] + r && t[2..] == r;
    NoLiteral(t);
  }

  lemma {:induction false} MembersHead(es: seq<Entry>, r: Text)
    requires es != []
    ensures var t := Join(EntryTexts(es)) + [125] + r; t != [] && t[0] == 0x22
  {
    EntryTextsAt(es);
    JoinHead(EntryTexts(es), 125, r);
  }

  lemma {:induction false} ObjectFrom(t: Text, us: seq<Field>, r: Text)
    requires |t| > 1 && t[0] == 0x7B && t[1] == 0x22 && ReadMembers(t[1..]) == Some((us, r))
    ensures ReadValue(t) == Some((Obj(us), r))
  {
    NoLiteral(t);
  }

  lemma {:induction false} ObjectOf(es: seq<Entry>, us: seq<Field>, fields: seq<Field>)
    requires Ascending(es) && |us| == |es| == |fields|
    requires forall i :: 0 <= i < |us| ==> us[i].key == es[i].key && ReadFrom(us[i], fields)
    ensures Same(Obj(us), Obj(fields)) && KeysAscend(Obj(us))
  {
    AscendingFields(es, us);
    assert forall i :: 0 <= i < |us| ==> KeysAscend(us[i].value);
    assert forall i :: 0 <= i < |us| ==> HasSame(us[i], fields);
  }

  lemma {:induction false} EntriesOf(impl: Impl, fields: seq<Field>, es: seq<Entry>)
    requires Plain(Obj(fields)) && es == Sort(CanonFields(impl, fields))
    ensures |es| == |fields| && Ascending(es) && FromFields(impl, es, fields)
  {
    CanonFieldsAt(impl, fields);
    SortMembers(CanonFields(impl, fields));
    SortAscends(CanonFields(impl, fields));
    forall i | 0 <= i < |es|
      ensures FromField(impl, es[i], fields)
    {
      assert es[i] in CanonFields(impl, fields);
      var j :| 0 <= j < |fields| && CanonFields(impl, fields)[j] == es[i];
    }
  }

  lemma {:induction false} AscendingFields(es: seq<Entry>, us: seq<Field>)
    requires Ascending(es) && |us| == |es| && forall i :: 0 <= i < |us| ==> us[i].key == es[i].key
    ensures forall i, j :: 0 <= i < j < |us| ==> KeyBefore(us[i].key, us[j].key)
  {
    forall i, j | 0 <= i < j < |us|
      ensures KeyBefore(us[i].key, us[j].key)
    {
      LessIsBefore(es[i].key, es[j].key);
    }
  }

  lemma {:induction false} MembersRead(impl: Impl, fields: seq<Field>, es: seq<Entry>, r: Text) returns (us: seq<Field>)
    requires Plain(Obj(fields)) && es != [] && FromFields(impl, es, fields)
    ensures ReadMembers(Join(EntryTexts(es)) + [125] + r) == Some((us, r))
    ensures |us| == |es| && forall i :: 0 <= i < |us| ==> us[i].key == es[i].key && ReadFrom(us[i], fields)
    decreases fields, 1, |es|
  {
    var ts := EntryTexts(es);
    var x := Rest(ts, 125, r);
    MembersText(es, r);
    var j := FieldOf(impl, es[0], fields);
    var u := PlainRead(impl, fields[j].value, x);
    var f := Field(es[0].key, u);
    MemberRead(es[0].key, es[0].text, u, x);
    ReadFromAt(f, fields, j);
    if |es| == 1 {
      us := [f];
      LastMember(ts[0] + x, f, r);
    } else {
      var rest := MembersRead(impl, fields, es[1..], r);
      us := [f] + rest;
      MoreMembers(ts[0] + x, f, x, rest, r);
    }
  }

  /** The text of the members is the first of them and what follows it. */
  lemma {:induction false} MembersText(es: seq<Entry>, r: Text)
    requires es != []
    ensures var ts := EntryTexts(es);
            var x := Rest(ts, 125, r);
            && ts != [] && Join(ts) + [125] + r == ts[0] + x && ts[0] == Quote(es[0].key) + [58] + es[0].text
            && x != [] && Delim(x)
            && (|es| == 1 ==> x == [125] + r)
            && (|es| > 1 ==> x[0] == 44 && x[1..] == Join(EntryTexts(es[1..])) + [125] + r)
  {
    var ts := EntryTexts(es);
    JoinHead(ts, 125, r);
    RestDelim(ts, 125, r);
    RestTail(ts, 125, r);
    EntryTextsAt(es);
    EntryTextsAt(es[1..]);
    assert ts[1..] == EntryTexts(es[1..]);
  }

  lemma {:induction false} ReadFromAt(f: Field, fields: seq<Field>, j: nat)
    requires KeysAscend(f.value) && j < |fields| && fields[j].key == f.key && Same(f.value, fields[j].value)
    ensures ReadFrom(f, fields)
  {
  }

  /** The text begins with a member that is followed by `x`. */
  ghost predicate MemberThen(t: Text, f: Field, x: Text) {
    && t != [] && t[0] == 0x22
    && var k := ReadChars(t[1..]);
       && k.Some? && k.value.0 == f.key && k.value.1 != [] && k.value.1[0] == 0x3A
       && ReadValue(k.value.1[1..]) == Some((f.value, x))
  }

  lemma {:induction false} LastMember(t: Text, f: Field, r: Text)
    requires MemberThen(t, f, [0x7D] + r)
    ensures ReadMembers(t) == Some(([f], r))
  {
  }

  lemma {:induction false} MoreMembers(t: Text, f: Field, x: Text, rest: seq<Field>, r: Text)
    requires MemberThen(t, f, x) && x != [] && x[0] == 0x2C && ReadMembers(x[1..]) == Some((rest, r))
    ensures ReadMembers(t) == Some(([f] + rest, r))
  {
  }

  /** One member is read up to what follows it. */
  lemma {:induction false} MemberRead(key: Text, text: Text, u: Value, x: Text)
    requires ReadValue(text + x) == Some((u, x)) && x != []
    ensures MemberThen(Quote(key) + [58] + text + x, Field(key, u), x)
  {
    var t := Quote(key) + [58] + text + x;
    assert t == [34] + (Escape(key) + [34] + ([58] + (text + x)));
    CharsRead(key, [58] + (text + x));
    assert ([0x3A] + (text + x))[1..] == text + x;
  }

  /** For each of the three serializers and any value: the text is that of a JSON value, and is
      read as the value that the serializer takes its argument for, with the keys of every object
      in ascending order of code units and nothing left over. */
  lemma {:induction false} CanonIsRead(impl: Impl, v: Value) returns (u: Value)
    requires Object(v)
    ensures ReadValue(Canon(impl, v)) == Some((u, [])) && Same(u, Normal(impl, v)) && KeysAscend(u)
  {
    NormalIsPlain(impl, v);
    u := PlainRead(impl, Normal(impl, v), []);
    assert Canon(impl, v) + [] == Canon(impl, v);
  }
}
