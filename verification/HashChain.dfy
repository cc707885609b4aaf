/** The record chain check of packages/audit-engine/src/AuditHasher.ts. */
module HashChain {
  import opened Canonical
  import opened Merkle

  datatype Record = Record(sequence: int, prevHash: Digest, hash: Digest, payload: Value)

  datatype Verdict = Valid | BrokenAt(sequence: int)

  function ChainHash(prev: Digest, sequence: int, payload: Value): Digest {
    Link(prev, sequence, Canon(Audit, payload))
  }

  /** The checks on one record of the sorted list. */
  predicate Holds(rs: seq<Record>, i: nat)
    requires i < |rs|
  {
    && (i > 0 ==> rs[i].sequence == rs[i - 1].sequence + 1 && rs[i].prevHash == rs[i - 1].hash)
    && rs[i].hash == ChainHash(rs[i].prevHash, rs[i].sequence, rs[i].payload)
  }

  function CheckFrom(rs: seq<Record>, i: nat): Verdict
    requires i <= |rs|
    decreases |rs| - i
  {
    if i == |rs| then Valid
    else if !Holds(rs, i) then BrokenAt(rs[i].sequence)
    else CheckFrom(rs, i + 1)
  }

  function InsertBySequence(rs: seq<Record>, r: Record): (s: seq<Record>)
    ensures |s| == |rs| + 1
  {
    if rs == [] || r.sequence < rs[0].sequence then [r] + rs else [rs[0]] + InsertBySequence(rs[1..], r)
  }

  /** The library's stable sort by sequence number. */
  function SortBySequence(rs: seq<Record>): (s: seq<Record>)
    ensures |s| == |rs|
  {
    if rs == [] then [] else InsertBySequence(SortBySequence(rs[..|rs| - 1]), rs[|rs| - 1])
  }

  function Verify(rs: seq<Record>): Verdict {
    CheckFrom(SortBySequence(rs), 0)
  }

  method VerifyChainIntegrity(records: seq<Record>) returns (verdict: Verdict)
    ensures verdict == Verify(records)
  {
    if records == [] {
      return Valid;
    }
    var sorted := SortBySequence(records);
    var i := 0;
    while i < |sorted|
      invariant 0 <= i <= |sorted|
      invariant CheckFrom(sorted, 0) == CheckFrom(sorted, i)
    {
      var current := sorted[i];
      if i > 0 {
        var prev := sorted[i - 1];
        if current.sequence != prev.sequence + 1 {
          return BrokenAt(current.sequence);
        }
        if current.prevHash != prev.hash {
          return BrokenAt(current.sequence);
        }
      }
      if current.hash != ChainHash(current.prevHash, current.sequence, current.payload) {
        return BrokenAt(current.sequence);
      }
      i := i + 1;
    }
    verdict := Valid;
  }

  // ---------------------------------------------------------------- order of the input

  ghost predicate BySequence(rs: seq<Record>) {
    forall i, j :: 0 <= i < j < |rs| ==> rs[i].sequence <= rs[j].sequence
  }

  ghost predicate Chained(rs: seq<Record>) {
    forall i :: 0 <= i < |rs| ==> Holds(rs, i)
  }

  lemma {:induction false} InsertMembership(rs: seq<Record>, r: Record)
    ensures multiset(InsertBySequence(rs, r)) == multiset(rs) + multiset{r}
  {
    if rs != [] && r.sequence >= rs[0].sequence {
      InsertMembership(rs[1..], r);
      assert rs == [rs[0]] + rs[1..];
    }
  }

  lemma {:induction false} InsertBySequenceSpec(rs: seq<Record>, r: Record)
    requires BySequence(rs)
    ensures BySequence(InsertBySequence(rs, r))
  {
    if rs == [] || r.sequence < rs[0].sequence {
    } else {
      var rest := InsertBySequence(rs[1..], r);
      InsertBySequenceSpec(rs[1..], r);
      InsertMembership(rs[1..], r);
      forall k | 0 <= k < |rest|
        ensures rs[0].sequence <= rest[k].sequence
      {
        assert rest[k] in multiset(rs[1..]) + multiset{r};
      }
    }
  }

  lemma {:induction false} SortBySequenceSpec(rs: seq<Record>)
    ensures BySequence(SortBySequence(rs)) && multiset(SortBySequence(rs)) == multiset(rs)
    decreases |rs|
  {
    if rs != [] {
      var n := |rs| - 1;
      SortBySequenceSpec(rs[..n]);
      InsertBySequenceSpec(SortBySequence(rs[..n]), rs[n]);
      InsertMembership(SortBySequence(rs[..n]), rs[n]);
      assert rs == rs[..n] + [rs[n]];
    }
  }

  lemma {:induction false} CheckIsChained(rs: seq<Record>, i: nat)
    requires i <= |rs|
    ensures CheckFrom(rs, i).Valid? <==> forall k :: i <= k < |rs| ==> Holds(rs, k)
    decreases |rs| - i
  {
    if i < |rs| {
      CheckIsChained(rs, i + 1);
    }
  }

  /** A refusal names the first record, in order of sequence, that breaks the chain. */
  lemma {:induction false} BrokenIsFirst(rs: seq<Record>, i: nat)
    requires i <= |rs| && CheckFrom(rs, i).BrokenAt?
    ensures exists k :: i <= k < |rs| && CheckFrom(rs, i).sequence == rs[k].sequence && !Holds(rs, k)
                        && forall j :: i <= j < k ==> Holds(rs, j)
    decreases |rs| - i
  {
    if Holds(rs, i) {
      BrokenIsFirst(rs, i + 1);
      var k :| i + 1 <= k < |rs| && CheckFrom(rs, i + 1).sequence == rs[k].sequence && !Holds(rs, k)
               && forall j :: i + 1 <= j < k ==> Holds(rs, j);
      assert forall j :: i <= j < k ==> Holds(rs, j);
    } else {
      assert CheckFrom(rs, i).sequence == rs[i].sequence;
    }
  }

  lemma {:induction false} Cancel<T>(a: multiset<T>, b: multiset<T>, c: multiset<T>)
    requires a + b == a + c
    ensures b == c
  {
    forall x
      ensures b[x] == c[x]
    {
      assert (a + b)[x] == a[x] + b[x] && (a + c)[x] == a[x] + c[x];
    }
  }

  /** Two sorted arrangements that agree up to `i` agree on the sequence number at `i`; if
      they put different records there, the number occurs again right behind it. */
  lemma {:induction false} SortedAt(rs: seq<Record>, ss: seq<Record>, i: nat)
    requires BySequence(rs) && BySequence(ss) && multiset(rs) == multiset(ss)
    requires i < |rs| == |ss| && rs[..i] == ss[..i]
    ensures rs[i].sequence == ss[i].sequence
    ensures rs[i] != ss[i] ==> i + 1 < |rs| && rs[i + 1].sequence == rs[i].sequence
  {
    assert rs == rs[..i] + rs[i..] && ss == ss[..i] + ss[i..];
    assert multiset(rs) == multiset(rs[..i]) + multiset(rs[i..]);
    assert multiset(ss) == multiset(ss[..i]) + multiset(ss[i..]);
    Cancel(multiset(rs[..i]), multiset(rs[i..]), multiset(ss[i..]));
    assert rs[i] in multiset(ss[i..]) by { assert rs[i] == rs[i..][0]; }
    assert ss[i] in multiset(rs[i..]) by { assert ss[i] == ss[i..][0]; }
    var a :| 0 <= a < |ss[i..]| && ss[i..][a] == rs[i];
    var b :| 0 <= b < |rs[i..]| && rs[i..][b] == ss[i];
    assert ss[i].sequence <= ss[i + a].sequence && rs[i].sequence <= rs[i + b].sequence;
    if rs[i] != ss[i] {
      assert b > 0;
    }
  }

  lemma {:induction false} SortedAgree(rs: seq<Record>, ss: seq<Record>, i: nat)
    requires BySequence(rs) && BySequence(ss) && multiset(rs) == multiset(ss)
    requires i <= |rs| == |ss| && rs[..i] == ss[..i]
    ensures CheckFrom(rs, i) == CheckFrom(ss, i)
    decreases |rs| - i
  {
    if i < |rs| {
      SortedAt(rs, ss, i);
      assert i > 0 ==> rs[i - 1] == rs[..i][i - 1] == ss[..i][i - 1] == ss[i - 1];
      if rs[i] == ss[i] {
        assert rs[..i + 1] == rs[..i] + [rs[i]] && ss[..i + 1] == ss[..i] + [ss[i]];
        SortedAgree(rs, ss, i + 1);
      } else {
        SortedAt(ss, rs, i);
        assert CheckFrom(rs, i) == BrokenAt(rs[i].sequence);
        assert CheckFrom(ss, i) == BrokenAt(ss[i].sequence);
      }
    }
  }

  lemma {:induction false} SameSize(rs: seq<Record>, ss: seq<Record>)
    requires multiset(rs) == multiset(ss)
    ensures |rs| == |ss|
  {
    assert |multiset(rs)| == |rs| && |multiset(ss)| == |ss|;
  }

  /** The verdict, with the sequence number it names, does not depend on the order in which
      the records are given. */
  lemma {:induction false} VerdictIgnoresOrder(rs: seq<Record>, ss: seq<Record>)
    requires multiset(rs) == multiset(ss)
    ensures Verify(rs) == Verify(ss)
  {
    SortBySequenceSpec(rs);
    SortBySequenceSpec(ss);
    SameSize(SortBySequence(rs), SortBySequence(ss));
    SortedAgree(SortBySequence(rs), SortBySequence(ss), 0);
  }

  /** Records are accepted exactly when some arrangement of them is a chain. */
  lemma {:induction false} ValidIsChainable(rs: seq<Record>)
    ensures Verify(rs).Valid? <==> exists ss :: multiset(ss) == multiset(rs) && Chained(ss)
  {
    SortBySequenceSpec(rs);
    CheckIsChained(SortBySequence(rs), 0);
    if Verify(rs).Valid? {
      assert Chained(SortBySequence(rs));
    }
    forall ss | multiset(ss) == multiset(rs) && Chained(ss)
      ensures Verify(rs).Valid?
    {
      ChainedVerifies(ss);
      VerdictIgnoresOrder(rs, ss);
    }
  }

  lemma {:induction false} ChainedAscends(rs: seq<Record>, i: nat, j: nat)
    requires Chained(rs) && i <= j < |rs|
    ensures rs[j].sequence == rs[i].sequence + (j - i)
    decreases j
  {
    if i < j {
      ChainedAscends(rs, i, j - 1);
      assert Holds(rs, j);
    }
  }

  lemma {:induction false} SortedIsFixed(rs: seq<Record>)
    requires BySequence(rs)
    ensures SortBySequence(rs) == rs
    decreases |rs|
  {
    if rs != [] {
      var n := |rs| - 1;
      SortedIsFixed(rs[..n]);
      InsertAtEnd(rs[..n], rs[n]);
      assert rs == rs[..n] + [rs[n]];
    }
  }

  lemma {:induction false} InsertAtEnd(rs: seq<Record>, r: Record)
    requires forall i :: 0 <= i < |rs| ==> rs[i].sequence <= r.sequence
    ensures InsertBySequence(rs, r) == rs + [r]
  {
    if rs != [] {
      InsertAtEnd(rs[1..], r);
      assert rs + [r] == [rs[0]] + (rs[1..] + [r]);
    }
  }

  /** A chain in its own order is accepted. */
  lemma {:induction false} ChainedVerifies(rs: seq<Record>)
    requires Chained(rs)
    ensures Verify(rs) == Valid
  {
    forall i, j | 0 <= i < j < |rs|
      ensures rs[i].sequence <= rs[j].sequence
    {
      ChainedAscends(rs, i, j);
    }
    SortedIsFixed(rs);
    CheckIsChained(rs, 0);
  }

  // ---------------------------------------------------------------- tampering

  /** Two chains of one length that end in one hash agree on every sequence number, every
      link and every canonical payload. */
  lemma {:induction false} FinalHashBinds(rs: seq<Record>, ss: seq<Record>, i: nat)
    requires Chained(rs) && Chained(ss) && |rs| == |ss| && i < |rs|
    requires rs[|rs| - 1].hash == ss[|ss| - 1].hash
    ensures rs[i].sequence == ss[i].sequence && rs[i].prevHash == ss[i].prevHash && rs[i].hash == ss[i].hash
    ensures Canon(Audit, rs[i].payload) == Canon(Audit, ss[i].payload)
    decreases |rs| - i
  {
    assert Holds(rs, i) && Holds(ss, i);
    if i < |rs| - 1 {
      FinalHashBinds(rs, ss, i + 1);
      assert Holds(rs, i + 1) && Holds(ss, i + 1);
    }
  }

  /** So two accepted ledgers of one length with one final hash hold, record by record, what the
      serializer reads as the same payload. */
  lemma {:induction false} AcceptedLedgersAgree(rs: seq<Record>, ss: seq<Record>, i: nat)
    requires Verify(rs).Valid? && Verify(ss).Valid? && |rs| == |ss| && i < |rs|
    requires SortBySequence(rs)[|rs| - 1].hash == SortBySequence(ss)[|ss| - 1].hash
    ensures var (r, s) := (SortBySequence(rs)[i], SortBySequence(ss)[i]);
            && r.sequence == s.sequence && r.prevHash == s.prevHash && r.hash == s.hash
            && Canon(Audit, r.payload) == Canon(Audit, s.payload)
            && (Object(r.payload) && Object(s.payload) ==> Same(Normal(Audit, r.payload), Normal(Audit, s.payload)))
  {
    CheckIsChained(SortBySequence(rs), 0);
    CheckIsChained(SortBySequence(ss), 0);
    FinalHashBinds(SortBySequence(rs), SortBySequence(ss), i);
    var r, s := SortBySequence(rs)[i], SortBySequence(ss)[i];
    if Object(r.payload) && Object(s.payload) {
      CanonExact(Audit, r.payload, Audit, s.payload);
    }
  }

  // ---------------------------------------------------------------- deletion

  /** A record of a chain is found where its number says. */
  lemma {:induction false} PlaceInChain(rs: seq<Record>, r: Record) returns (k: nat)
    requires Chained(rs) && r in rs
    ensures k < |rs| && rs[k] == r && k == r.sequence - rs[0].sequence
  {
    k :| 0 <= k < |rs| && rs[k] == r;
    ChainedAscends(rs, 0, k);
  }

  /** A chain all of whose records are in another chain is a stretch of it. */
  lemma {:induction false} ChainWithinChain(rs: seq<Record>, ss: seq<Record>) returns (i: nat)
    requires Chained(rs) && Chained(ss) && ss != [] && forall r :: r in ss ==> r in rs
    ensures i + |ss| <= |rs| && ss == rs[i..i + |ss|]
  {
    assert ss[0] in ss && ss[|ss| - 1] in ss;
    i := PlaceInChain(rs, ss[0]);
    var last := PlaceInChain(rs, ss[|ss| - 1]);
    ChainedAscends(ss, 0, |ss| - 1);
    forall k | 0 <= k < |ss|
      ensures ss[k] == rs[i + k]
    {
      assert ss[k] in ss;
      var m := PlaceInChain(rs, ss[k]);
      ChainedAscends(ss, 0, k);
    }
  }

  /** The check anchors neither end of the ledger: of an accepted ledger it accepts exactly the
      contiguous stretches, so it notices every deletion but those at the two ends. */
  lemma {:induction false} DeletionExactly(rs: seq<Record>, ss: seq<Record>)
    requires Verify(rs).Valid? && multiset(ss) <= multiset(rs)
    ensures var all := SortBySequence(rs);
            Verify(ss).Valid? <==> exists i, j :: 0 <= i <= j <= |all| && multiset(ss) == multiset(all[i..j])
  {
    var all := SortBySequence(rs);
    SortBySequenceSpec(rs);
    CheckIsChained(all, 0);
    if Verify(ss).Valid? {
      var i, j := StretchOf(all, ss);
    }
    forall i, j | 0 <= i <= j <= |all| && multiset(ss) == multiset(all[i..j])
      ensures Verify(ss).Valid?
    {
      StretchIsChained(all, i, j);
      ChainedVerifies(all[i..j]);
      VerdictIgnoresOrder(ss, all[i..j]);
    }
  }

  /** For instance one that lost its newest record. */
  lemma {:induction false} TruncationPasses(rs: seq<Record>)
    requires Verify(rs).Valid? && rs != []
    ensures Verify(SortBySequence(rs)[..|rs| - 1]).Valid?
  {
    CheckIsChained(SortBySequence(rs), 0);
    StretchIsChained(SortBySequence(rs), 0, |rs| - 1);
    ChainedVerifies(SortBySequence(rs)[0..|rs| - 1]);
  }

  lemma {:induction false} StretchOf(all: seq<Record>, ss: seq<Record>) returns (i: nat, j: nat)
    requires Chained(all) && Verify(ss).Valid? && multiset(ss) <= multiset(all)
    ensures i <= j <= |all| && multiset(ss) == multiset(all[i..j])
  {
    ValidIsChainable(ss);
    var tt :| multiset(tt) == multiset(ss) && Chained(tt);
    if tt == [] {
      i, j := 0, 0;
    } else {
      forall r | r in tt
        ensures r in all
      {
        assert r in multiset(tt) && r in multiset(all);
      }
      i := ChainWithinChain(all, tt);
      j := i + |tt|;
    }
  }

  lemma {:induction false} StretchIsChained(rs: seq<Record>, i: nat, j: nat)
    requires Chained(rs) && i <= j <= |rs|
    ensures Chained(rs[i..j])
  {
    forall k | 0 <= k < j - i
      ensures Holds(rs[i..j], k)
    {
      assert Holds(rs, i + k);
    }
  }

  // ---------------------------------------------------------------- repeated numbers

  lemma {:induction false} DuplicateSequence(rs: seq<Record>, i: nat, j: nat)
    requires i < j < |rs| && rs[i].sequence == rs[j].sequence
    ensures Verify(rs) != Valid
  {
    ValidIsChainable(rs);
    forall ss | multiset(ss) == multiset(rs)
      ensures !Chained(ss)
    {
      if Chained(ss) { ChainedOnce(rs, ss, i, j); }
    }
  }

  lemma {:induction false} TakeOut(s: seq<Record>, i: nat)
    requires i < |s|
    ensures multiset(s) == multiset(s[..i] + s[i + 1..]) + multiset{s[i]}
  {
    assert s == s[..i] + [s[i]] + s[i + 1..];
  }

  lemma {:induction false} OtherPlace(rs: seq<Record>, ss: seq<Record>, i: nat, j: nat) returns (k: nat, m: nat)
    requires multiset(ss) == multiset(rs) && i < j < |rs|
    ensures k < |ss| && m < |ss| && k != m && ss[k] == rs[i] && ss[m] == rs[j]
  {
    assert rs[i] in multiset(rs);
    k :| 0 <= k < |ss| && ss[k] == rs[i];
    var others, rest := rs[..i] + rs[i + 1..], ss[..k] + ss[k + 1..];
    TakeOut(rs, i);
    TakeOut(ss, k);
    assert others[j - 1] == rs[j];
    assert rs[j] in multiset(others);
    assert multiset(rest) == multiset(ss) - multiset{ss[k]} == multiset(others);
    m := PlaceWithout(ss, k, rs[j]);
  }

  lemma {:induction false} PlaceWithout(ss: seq<Record>, k: nat, r: Record) returns (m: nat)
    requires k < |ss| && r in multiset(ss[..k] + ss[k + 1..])
    ensures m < |ss| && m != k && ss[m] == r
  {
    var rest := ss[..k] + ss[k + 1..];
    var q :| 0 <= q < |rest| && rest[q] == r;
    m := if q < k then q else q + 1;
  }

  lemma {:induction false} ChainedOnce(rs: seq<Record>, ss: seq<Record>, i: nat, j: nat)
    requires multiset(ss) == multiset(rs) && Chained(ss) && i < j < |rs|
    ensures rs[i].sequence != rs[j].sequence
  {
    var k, m := OtherPlace(rs, ss, i, j);
    if k < m { ChainedAscends(ss, k, m); } else { ChainedAscends(ss, m, k); }
  }
}
