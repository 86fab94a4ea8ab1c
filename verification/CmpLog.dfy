/**
 The CmpLog record of one key: a header of bit fields and a row that serves as a ring of 32 comparisons or
 of 8 function calls.
 */
module CmpLog {
  import opened Words

  const CMP_MAP_H := 32
  const CMP_MAP_RTN_H := 8
  const HITS_WRAP := 0x100_0000

  datatype Kind = NoKind | Ins | Rtn

  datatype Operands = Operands(v0: u64, v1: u64, v0High: u64, v1High: u64)

  /** Two buffers of 31 bytes with their length bytes. */
  datatype FnOperands = FnOperands(v0: seq<u8>, v0Len: u8, v1: seq<u8>, v1Len: u8)

  /** A recorded comparison: its shape (bytes minus one) and whether the high halves were stored. */
  datatype InsCall = InsCall(shape: u8, v0: u64, v1: u64, high0: u64, high1: u64, wide: bool)

  /** A recorded call: the lengths copied, and the shape length. */
  datatype RtnCall = RtnCall(len: nat, v0: seq<u8>, v0Len: u8, v1: seq<u8>, v1Len: u8)

  function MaxShape(calls: seq<InsCall>): nat {
    if calls == [] then 0
    else Max(MaxShape(calls[..|calls| - 1]), calls[|calls| - 1].shape)
  }

  /** The 5-bit shape field after the calls: raised to a larger shape, which the field may truncate. */
  function ShapeField(calls: seq<InsCall>): (s: nat)
    ensures s < 32
  {
    if calls == [] then 0
    else
      var before, last := ShapeField(calls[..|calls| - 1]), calls[|calls| - 1].shape;
      if |calls| == 1 || before < last then last % 32 else before
  }

  lemma ShapeStep(calls: seq<InsCall>, call: InsCall)
    ensures ShapeField(calls + [call]) ==
            if calls == [] || ShapeField(calls) < call.shape then call.shape % 32 else ShapeField(calls)
  {
    assert (calls + [call])[..|calls|] == calls;
  }

  /** The field shows the largest shape exactly when every shape fits it. */
  lemma {:induction false} ShapeFieldIsMax(calls: seq<InsCall>)
    ensures ShapeField(calls) == MaxShape(calls) <==> forall i :: 0 <= i < |calls| ==> calls[i].shape < 32
  {
    if calls != [] {
      var before := calls[..|calls| - 1];
      ShapeFieldIsMax(before);
      if forall i :: 0 <= i < |before| ==> before[i].shape < 32 {
      } else {
        var i :| 0 <= i < |before| && before[i].shape >= 32;
        MaxShapeCovers(before, i);
        assert calls[i].shape >= 32;
      }
    }
  }

  lemma {:induction false} MaxShapeCovers(calls: seq<InsCall>, i: nat)
    requires i < |calls|
    ensures calls[i].shape <= MaxShape(calls)
  {
    if i < |calls| - 1 {
      MaxShapeCovers(calls[..|calls| - 1], i);
    }
  }

  function MaxLen(calls: seq<RtnCall>): nat {
    if calls == [] then 0
    else Max(MaxLen(calls[..|calls| - 1]), calls[|calls| - 1].len)
  }

  function Max(a: nat, b: nat): nat {
    if a < b then b else a
  }

  /** Slot k modulo 32 holds call k, for each of the last 32 calls. */
  ghost predicate InsRing(calls: seq<InsCall>, row: seq<Operands>) {
    && |row| == CMP_MAP_H
    && forall k :: 0 <= k < |calls| && |calls| - CMP_MAP_H <= k ==> Shows(row[k % CMP_MAP_H], calls[k])
  }

  ghost predicate Shows(slot: Operands, call: InsCall) {
    && slot.v0 == call.v0 && slot.v1 == call.v1
    && (call.wide ==> slot.v0High == call.high0 && slot.v1High == call.high1)
  }

  ghost predicate RtnRing(calls: seq<RtnCall>, row: seq<FnOperands>) {
    && |row| == CMP_MAP_RTN_H
    && (forall j :: 0 <= j < |row| ==> |row[j].v0| == 31 && |row[j].v1| == 31)
    && forall k :: 0 <= k < |calls| && |calls| - CMP_MAP_RTN_H <= k ==> HoldsCall(row, calls, k)
  }

  lemma RingStart(row: seq<FnOperands>)
    requires IsRow(row)
    ensures RtnRing([], row)
  {
  }

  lemma HeaderStart(call: RtnCall)
    requires 1 <= call.len <= 31
    ensures RtnHeader([call], 1, call.len - 1)
  {
    assert [call][..0] == [];
  }

  lemma HeaderStep(calls: seq<RtnCall>, hits: nat, shape: nat, call: RtnCall)
    requires calls != [] && RtnHeader(calls, hits, shape) && 1 <= call.len <= 31
    ensures RtnHeader(calls + [call], (hits + 1) % HITS_WRAP, if shape < call.len then call.len - 1 else shape)
  {
    WrapAdd(|calls|, 1, HITS_WRAP);
    assert (calls + [call])[..|calls|] == calls;
  }

  /** The slot of the k-th call still shows it. */
  ghost predicate HoldsCall(row: seq<FnOperands>, calls: seq<RtnCall>, k: nat) {
    k < |calls| && |row| == CMP_MAP_RTN_H && ShowsCall(row[k % CMP_MAP_RTN_H], calls[k])
  }

  /** The header counts the calls, modulo its 24 bits, and keeps the largest length minus one. */
  ghost predicate RtnHeader(calls: seq<RtnCall>, hits: nat, shape: nat) {
    && hits == |calls| % HITS_WRAP
    && (forall i :: 0 <= i < |calls| ==> 1 <= calls[i].len <= 31) && shape == MaxLen(calls) - 1
  }

  ghost predicate ShowsCall(slot: FnOperands, call: RtnCall) {
    && |call.v0| <= |slot.v0| && slot.v0[..|call.v0|] == call.v0 && slot.v0Len == call.v0Len
    && |call.v1| <= |slot.v1| && slot.v1[..|call.v1|] == call.v1 && slot.v1Len == call.v1Len
  }

  /** A slot after a call: behind the bytes copied from the call stands what the slot held before. */
  function Stored(call: RtnCall, held: FnOperands): (slot: FnOperands)
    requires |call.v0| <= |held.v0| == 31 && |call.v1| <= |held.v1| == 31
    ensures |slot.v0| == 31 && |slot.v1| == 31
  {
    FnOperands(call.v0 + held.v0[|call.v0|..], call.v0Len, call.v1 + held.v1[|call.v1|..], call.v1Len)
  }

  /** The row after the n-th call since the kind changed. */
  function RowAfter(row: seq<FnOperands>, n: nat, call: RtnCall): seq<FnOperands>
    requires IsRow(row) && |call.v0| <= 31 && |call.v1| <= 31
  {
    row[n % CMP_MAP_RTN_H := Stored(call, row[n % CMP_MAP_RTN_H])]
  }

  /** The 24-bit counter wraps at a multiple of the ring length, so masking it still gives the call's index. */
  lemma WrapKeepsSlot(n: nat, h: nat)
    requires h == CMP_MAP_H || h == CMP_MAP_RTN_H
    ensures n % HITS_WRAP % h == n % h
  {
    var q := n / HITS_WRAP;
    var m := HITS_WRAP / h;
    assert n == q * HITS_WRAP + n % HITS_WRAP;
    assert q * HITS_WRAP == q * m * h;
    var r := n % HITS_WRAP;
    assert r == r / h * h + r % h;
    assert n == (q * m + r / h) * h + r % h;
    DivModUnique(n, h, q * m + r / h, r % h);
  }

  /** Storing the next call overwrites only the slot of the call one ring length back. */
  lemma OtherSlots(n: nat, h: nat, k: nat)
    requires h > 0 && k < n && n - h < k
    ensures k % h != n % h
  {
    if k % h == n % h {
      assert n == n / h * h + n % h && k == k / h * h + k % h;
      assert n - k == (n / h - k / h) * h;
      if n / h - k / h >= 1 {
        MulAtLeast(n / h - k / h, h);
      } else {
        MulAtMost(n / h - k / h, h);
      }
    }
  }

  lemma MulAtMost(d: int, h: nat)
    requires d <= 0
    ensures d * h <= 0
  {
  }

  /** One key of __afl_cmp_map: its header and its row. The row's two uses share memory, so `ins` and `rtn`
      are meaningful only under their own kind. */
  class Key {
    var hits: nat
    var shape: nat
    var kind: Kind
    var attribute: nat
    const ins: array<Operands>
    const rtn: array<FnOperands>

    /** The recorded calls since the last change of kind. */
    ghost var insCalls: seq<InsCall>
    ghost var rtnCalls: seq<RtnCall>

    ghost predicate Valid()
      reads this, ins, rtn
    {
      && ins.Length == CMP_MAP_H && rtn.Length == CMP_MAP_RTN_H && shape < 32
      && (kind.Ins? ==>
            && insCalls != [] && InsRing(insCalls, ins[..]) && hits == |insCalls| % HITS_WRAP
            && shape == ShapeField(insCalls))
      && (kind.Rtn? ==>
            && rtnCalls != [] && RtnRing(rtnCalls, rtn[..]) && RtnHeader(rtnCalls, hits, shape))
    }

    constructor ()
      ensures Valid() && kind.NoKind? && fresh(ins) && fresh(rtn)
    {
      hits, shape, kind, attribute := 0, 0, NoKind, 0;
      ins := new Operands[CMP_MAP_H](_ => Operands(0, 0, 0, 0));
      rtn := new FnOperands[CMP_MAP_RTN_H](_ => FnOperands([], 0, [], 0));
      insCalls, rtnCalls := [], [];
    }

    /** The header of a comparison, and the index of its slot before masking. */
    method CountIns(call: InsCall, row: seq<Operands>) returns (index: nat)
      requires Valid() && |row| == CMP_MAP_H
      modifies this, ins
      ensures kind.Ins? && hits == (|insCalls| + 1) % HITS_WRAP && shape == ShapeField(insCalls + [call])
      ensures index == |insCalls| % HITS_WRAP && InsRing(insCalls, ins[..])
      ensures insCalls == if old(kind).Ins? then old(insCalls) else []
    {
      ghost var slots := ins[..];
      if !kind.Ins? {
        kind := Ins;
        index := 0;
        hits := 1;
        shape := call.shape % 32;
        CopyInto(ins, 0, row);
        insCalls := [];
      } else {
        index := hits;
        WrapAdd(|insCalls|, 1, HITS_WRAP);
        hits := (hits + 1) % HITS_WRAP;
        if shape < call.shape {
          shape := call.shape % 32;
        }
        assert ins[..] == slots;
      }
      ShapeStep(insCalls, call);
    }

    /** The common part of the comparison hooks. `row` is what the memory of the row reads as when it last
        served the other kind. */
    method RecordIns(call: InsCall, attr: u8, row: seq<Operands>)
      requires Valid() && |row| == CMP_MAP_H
      modifies this, ins
      ensures Valid() && kind.Ins? && attribute == attr % 16
      ensures insCalls == if old(kind).Ins? then old(insCalls) + [call] else [call]
    {
      var index := CountIns(call, row);
      attribute := attr % 16;
      StoreIns(index, call);
    }

    /** Into the slot of the call's index; the high halves only for wide operands. */
    method StoreIns(index: nat, call: InsCall)
      requires ins.Length == CMP_MAP_H && index == |insCalls| % HITS_WRAP && InsRing(insCalls, ins[..])
      modifies ins, this`insCalls
      ensures insCalls == old(insCalls) + [call] && InsRing(insCalls, ins[..])
    {
      ghost var n := |insCalls|;
      WrapKeepsSlot(n, CMP_MAP_H);
      var slot := index % CMP_MAP_H;
      ins[slot] := ins[slot].(v0 := call.v0, v1 := call.v1);
      if call.wide {
        ins[slot] := ins[slot].(v0High := call.high0, v1High := call.high1);
      }
      insCalls := insCalls + [call];
      forall k | 0 <= k < |insCalls| && |insCalls| - CMP_MAP_H <= k
        ensures Shows(ins[..][k % CMP_MAP_H], insCalls[k])
      {
        if k < n {
          OtherSlots(n, CMP_MAP_H, k);
        }
      }
    }

    /** __cmplog_ins_hook1, 2, 4 and 8, by operand size. Equal operands are not recorded. */
    method InsHook(bytes: nat, arg1: u64, arg2: u64, attr: u8, row: seq<Operands>)
      requires Valid() && |row| == CMP_MAP_H && bytes in {1, 2, 4, 8}
      modifies this, ins
      ensures Valid()
      ensures arg1 == arg2 ==> kind == old(kind) && insCalls == old(insCalls) && ins[..] == old(ins[..])
      ensures arg1 != arg2 ==>
                var call := InsCall(bytes - 1, arg1, arg2, 0, 0, false);
                kind.Ins? && insCalls == if old(kind).Ins? then old(insCalls) + [call] else [call]
    {
      if arg1 == arg2 {
        return;
      }
      RecordIns(InsCall(bytes - 1, arg1, arg2, 0, 0, false), attr, row);
    }

    /** __cmplog_ins_hookN: operands of up to 128 bits, high halves stored above 8 bytes. */
    method InsHookN(size: u8, low1: u64, high1: u64, low2: u64, high2: u64, attr: u8, row: seq<Operands>)
      requires Valid() && |row| == CMP_MAP_H
      modifies this, ins
      ensures Valid()
      ensures low1 == low2 && high1 == high2 ==>
                kind == old(kind) && insCalls == old(insCalls) && ins[..] == old(ins[..])
      ensures low1 != low2 || high1 != high2 ==>
                var call := InsCall(size, low1, low2, high1, high2, size > 7);
                kind.Ins? && insCalls == if old(kind).Ins? then old(insCalls) + [call] else [call]
    {
      if low1 == low2 && high1 == high2 {
        return;
      }
      RecordIns(InsCall(size, low1, low2, high1, high2, size > 7), attr, row);
    }

    /** __cmplog_ins_hook16 records equal operands, too. */
    method InsHook16(low1: u64, high1: u64, low2: u64, high2: u64, attr: u8, row: seq<Operands>)
      requires Valid() && |row| == CMP_MAP_H
      modifies this, ins
      ensures Valid() && kind.Ins?
      ensures var call := InsCall(15, low1, low2, high1, high2, true);
              insCalls == if old(kind).Ins? then old(insCalls) + [call] else [call]
    {
      RecordIns(InsCall(15, low1, low2, high1, high2, true), attr, row);
    }

    /** The first function call after a change of kind. */
    method StartRtn(call: RtnCall, overlay: seq<FnOperands>)
      requires rtn.Length == CMP_MAP_RTN_H && IsRow(overlay) && 1 <= call.len <= 31
      modifies this, rtn
      ensures kind.Rtn? && shape < 32 && RtnHeader([call], hits, shape)
      ensures rtnCalls == [] && rtn[..] == overlay && RtnRing([], rtn[..])
    {
      kind := Rtn;
      hits := 1;
      shape := call.len - 1;
      CopyInto(rtn, 0, overlay);
      rtnCalls := [];
      HeaderStart(call);
      RingStart(overlay);
      assert rtn[..] == overlay;
    }

    /** A further one. */
    method NextRtn(call: RtnCall)
      requires rtnCalls != [] && RtnHeader(rtnCalls, hits, shape) && shape < 32 && 1 <= call.len <= 31
      modifies this`hits, this`shape
      ensures shape < 32 && RtnHeader(rtnCalls + [call], hits, shape)
    {
      HeaderStep(rtnCalls, hits, shape, call);
      hits := (hits + 1) % HITS_WRAP;
      if shape < call.len {
        shape := call.len - 1;
      }
    }

    /** The header of a function call, and the index of its slot before masking. */
    method CountRtn(call: RtnCall, overlay: seq<FnOperands>) returns (index: nat)
      requires Valid() && IsRow(overlay) && 1 <= call.len <= 31
      modifies this, rtn
      ensures kind.Rtn? && shape < 32 && RtnHeader(rtnCalls + [call], hits, shape)
      ensures index == |rtnCalls| % HITS_WRAP && RtnRing(rtnCalls, rtn[..])
      ensures rtnCalls == if old(kind).Rtn? then old(rtnCalls) else []
      ensures rtn[..] == if old(kind).Rtn? then old(rtn[..]) else overlay
    {
      if !kind.Rtn? {
        index := 0;
        StartRtn(call, overlay);
        assert [] + [call] == [call];
      } else {
        index := hits;
        NextRtn(call);
      }
    }

    /** The common part of the function hooks: header, then slot. */
    method RecordRtn(call: RtnCall, overlay: seq<FnOperands>)
      requires Valid() && IsRow(overlay) && 1 <= call.len <= 31 && |call.v0| <= 31 && |call.v1| <= 31
      modifies this, rtn
      ensures Valid() && kind.Rtn?
      ensures rtnCalls == if old(kind).Rtn? then old(rtnCalls) + [call] else [call]
      ensures rtn[..] == RowAfter(if old(kind).Rtn? then old(rtn[..]) else overlay, |rtnCalls| - 1, call)
    {
      var index := CountRtn(call, overlay);
      StoreRtn(index, call);
    }

    method StoreRtn(index: nat, call: RtnCall)
      requires rtn.Length == CMP_MAP_RTN_H && index == |rtnCalls| % HITS_WRAP && RtnRing(rtnCalls, rtn[..])
      requires |call.v0| <= 31 && |call.v1| <= 31
      modifies rtn, this`rtnCalls
      ensures rtnCalls == old(rtnCalls) + [call] && RtnRing(rtnCalls, rtn[..])
      ensures rtn[..] == RowAfter(old(rtn[..]), old(|rtnCalls|), call)
    {
      ghost var n := |rtnCalls|;
      WrapKeepsSlot(n, CMP_MAP_RTN_H);
      var slot := index % CMP_MAP_RTN_H;
      var held := rtn[slot];
      rtn[slot] := held.(v0Len := call.v0Len, v1Len := call.v1Len);
      rtn[slot] := rtn[slot].(v0 := call.v0 + held.v0[|call.v0|..], v1 := call.v1 + held.v1[|call.v1|..]);
      rtnCalls := rtnCalls + [call];
      forall k | 0 <= k < |rtnCalls| && |rtnCalls| - CMP_MAP_RTN_H <= k
        ensures HoldsCall(rtn[..], rtnCalls, k)
      {
        if k < n {
          assert HoldsCall(old(rtn[..]), old(rtnCalls), k);
          OtherSlots(n, CMP_MAP_RTN_H, k);
        }
      }
    }

    /** Nothing is recorded, or the call is appended and stored; a change of kind starts over. */
    twostate predicate LoggedRtn(call: Option<RtnCall>, overlay: seq<FnOperands>)
      requires old(Valid()) && IsRow(overlay)
      requires call.Some? ==> |call.value.v0| <= 31 && |call.value.v1| <= 31
      reads this, rtn
    {
      if call.None? then kind == old(kind) && rtnCalls == old(rtnCalls) && rtn[..] == old(rtn[..])
      else
        && kind.Rtn? && rtnCalls == (if old(kind).Rtn? then old(rtnCalls) + [call.value] else [call.value])
        && rtn[..] == RowAfter(if old(kind).Rtn? then old(rtn[..]) else overlay, |rtnCalls| - 1, call.value)
    }

    /** __cmplog_rtn_hook: valid1 and valid2 are the readable lengths that area_is_valid reports. */
    method RtnHook(ptr1: seq<u8>, ptr2: seq<u8>, valid1: int, valid2: int, overlay: seq<FnOperands>)
      requires Valid() && IsRow(overlay)
      requires valid1 <= |ptr1| && valid2 <= |ptr2|
      modifies this, rtn
      ensures Valid()
      ensures LoggedRtn(
                if valid1 <= 0 || valid2 <= 0 then None
                else
                  var len := Min(31, Min(valid1, valid2));
                  Some(RtnCall(len, ptr1[..len], len, ptr2[..len], len)),
                overlay)
    {
      if valid1 <= 0 || valid2 <= 0 {
        return;
      }
      var len := Min(31, Min(valid1, valid2));
      RecordRtn(RtnCall(len, ptr1[..len], len, ptr2[..len], len), overlay);
    }

    /** __cmplog_rtn_hook_str: null pointers are skipped; the terminating zero counts, within 31 bytes. */
    method RtnHookStr(ptr1: Option<seq<u8>>, ptr2: Option<seq<u8>>, overlay: seq<FnOperands>)
      requires Valid() && IsRow(overlay)
      requires ptr1.Some? ==> StrnLen(ptr1.value, 30) < |ptr1.value|
      requires ptr2.Some? ==> StrnLen(ptr2.value, 30) < |ptr2.value|
      modifies this, rtn
      ensures Valid() && LoggedRtn(StrCall(ptr1, ptr2), overlay)
      ensures if ptr1.Some? && ptr2.Some? && (TwoLetters(ptr1.value) || TwoLetters(ptr2.value))
              then kind.Rtn? && rtnCalls != [] && ShowsStrings(rtnCalls[|rtnCalls| - 1], ptr1.value, ptr2.value)
              else kind == old(kind) && rtnCalls == old(rtnCalls) && rtn[..] == old(rtn[..])
    {
      StrCallShows(ptr1, ptr2);
      if ptr1.None? || ptr2.None? {
        return;
      }
      var len1, len2 := StrnLen(ptr1.value, 30) + 1, StrnLen(ptr2.value, 30) + 1;
      var l := Max(len1, len2);
      if l < 3 {
        return;
      }
      RecordRtn(RtnCall(l, ptr1.value[..len1], 0x80 + len1, ptr2.value[..len2], 0x80 + len2), overlay);
    }

    /** How much of a buffer __cmplog_rtn_hook_strn copies. */
    static method CopyLength(ptr: seq<u8>, len: nat, readable: nat) returns (n: nat)
      requires readable <= StrnLen(ptr, Min(len, 31)) + 1
      ensures n == StrnCopied(ptr, len, readable) && n <= 31
    {
      var len0 := Min(len, 31);
      n := StrnLen(ptr, len0);
      if n < 31 {
        n := readable;
      }
    }

    /** __cmplog_rtn_hook_strn. The sequences are the readable memory from each pointer on; readable1 and readable2
        are what area_is_valid reports, both times about the first pointer. `ok` is false where the hook reads
        memory that is not there; what the record shows afterwards is left open. */
    method RtnHookStrn(ptr1: seq<u8>, ptr2: seq<u8>, len: nat, readable1: nat, readable2: nat,
                       overlay: seq<FnOperands>)
      returns (ok: bool)
      requires Valid() && IsRow(overlay)
      requires readable1 <= StrnLen(ptr1, Min(len, 31)) + 1 && readable2 <= StrnLen(ptr2, Min(len, 31)) + 1
      modifies this, rtn
      ensures ok <==> StrnReads(ptr1, ptr2, len, readable1, readable2)
      ensures ok ==> Valid() && LoggedRtn(StrnCall(ptr1, ptr2, len, readable1, readable2), overlay)
    {
      if len == 0 {
        return true;
      }
      if ScansPast(ptr1, len) || ScansPast(ptr2, len) {
        return false;
      }
      var len1 := CopyLength(ptr1, len, readable1);
      var len2 := CopyLength(ptr2, len, readable2);
      var l := Max(len1, len2);
      if l < 2 {
        return true;
      }
      if len1 > |ptr1| || len2 > |ptr2| {
        return false;
      }
      RecordRtn(RtnCall(l, ptr1[..len1], 0x80 + l, ptr2[..len2], 0x80 + l), overlay);
      return true;
    }
  }

  function Min(a: int, b: int): int {
    if a < b then a else b
  }

  ghost predicate IsRow(overlay: seq<FnOperands>) {
    |overlay| == CMP_MAP_RTN_H && forall j :: 0 <= j < |overlay| ==> |overlay[j].v0| == 31 && |overlay[j].v1| == 31
  }

  /** strnlen */
  function StrnLen(p: seq<u8>, max: nat): (n: nat)
    ensures n <= max && n <= |p|
    ensures forall i :: 0 <= i < n ==> p[i] != 0
    ensures n < max && n < |p| ==> p[n] == 0
  {
    if max == 0 || p == [] || p[0] == 0 then 0 else StrnLen(p[1..], max - 1) + 1
  }

  /** Each length byte tells how much of its own buffer was copied. */
  function StrCall(ptr1: Option<seq<u8>>, ptr2: Option<seq<u8>>): Option<RtnCall>
    requires ptr1.Some? ==> StrnLen(ptr1.value, 30) < |ptr1.value|
    requires ptr2.Some? ==> StrnLen(ptr2.value, 30) < |ptr2.value|
  {
    if ptr1.None? || ptr2.None? then None
    else
      var len1, len2 := StrnLen(ptr1.value, 30) + 1, StrnLen(ptr2.value, 30) + 1;
      if Max(len1, len2) < 3 then None
      else Some(RtnCall(Max(len1, len2), ptr1.value[..len1], 0x80 + len1, ptr2.value[..len2], 0x80 + len2))
  }

  /** At least two bytes before the terminating zero. */
  predicate TwoLetters(p: seq<u8>) {
    |p| > 1 && p[0] != 0 && p[1] != 0
  }

  /** The string up to and with its terminating zero, or its first 31 bytes if there is none in the first 30. */
  ghost predicate CopyOf(v: seq<u8>, p: seq<u8>) {
    && 0 < |v| <= 31 && v <= p && 0 !in v[..|v| - 1] && (|v| < 31 ==> v[|v| - 1] == 0)
  }

  /** The record of two strings: the first and the second one, each with its own length. */
  ghost predicate ShowsStrings(call: RtnCall, p1: seq<u8>, p2: seq<u8>) {
    && CopyOf(call.v0, p1) && CopyOf(call.v1, p2)
    && call.v0Len == 0x80 + |call.v0| && call.v1Len == 0x80 + |call.v1| && call.len == Max(|call.v0|, |call.v1|)
  }

  lemma CopyFound(p: seq<u8>)
    requires StrnLen(p, 30) < |p|
    ensures CopyOf(p[..StrnLen(p, 30) + 1], p) && (StrnLen(p, 30) >= 2 <==> TwoLetters(p))
  {
  }

  /** Two strings are recorded exactly if one of them has two letters, and each shows in its own place. */
  lemma StrCallShows(ptr1: Option<seq<u8>>, ptr2: Option<seq<u8>>)
    requires ptr1.Some? ==> StrnLen(ptr1.value, 30) < |ptr1.value|
    requires ptr2.Some? ==> StrnLen(ptr2.value, 30) < |ptr2.value|
    ensures StrCall(ptr1, ptr2).Some? <==>
            ptr1.Some? && ptr2.Some? && (TwoLetters(ptr1.value) || TwoLetters(ptr2.value))
    ensures StrCall(ptr1, ptr2).Some? ==> ShowsStrings(StrCall(ptr1, ptr2).value, ptr1.value, ptr2.value)
  {
    if ptr1.Some? && ptr2.Some? {
      CopyFound(ptr1.value);
      CopyFound(ptr2.value);
    }
  }

  function StrnCopied(p: seq<u8>, len: nat, readable: nat): nat {
    if StrnLen(p, Min(len, 31)) < 31 then readable else 31
  }

  /** strnlen finds neither a zero nor its bound in the readable memory. */
  predicate ScansPast(p: seq<u8>, len: nat) {
    StrnLen(p, Min(len, 31)) == |p| < Min(len, 31)
  }

  /** That is where the readable memory is shorter than the bound and holds no zero. */
  lemma ScansPastExactly(p: seq<u8>, len: nat)
    ensures ScansPast(p, len) <==> |p| < Min(len, 31) && 0 !in p
  {
    var n := StrnLen(p, Min(len, 31));
    assert n < |p| && n < Min(len, 31) ==> p[n] == 0;
  }

  /** Where area_is_valid reports all it was asked for, each buffer shows its string as strncmp sees it: up to its
      zero, or the bytes compared and one more, or 31 bytes. */
  lemma StrnCallShows(ptr1: seq<u8>, ptr2: seq<u8>, len: nat)
    requires len > 0 && StrnLen(ptr1, Min(len, 31)) < |ptr1| && StrnLen(ptr2, Min(len, 31)) < |ptr2|
    ensures var n1, n2 := StrnLen(ptr1, Min(len, 31)), StrnLen(ptr2, Min(len, 31));
            StrnReads(ptr1, ptr2, len, n1 + 1, n2 + 1) &&
            var call := StrnCall(ptr1, ptr2, len, n1 + 1, n2 + 1);
            && (call.None? <==> ptr1[0] == 0 && ptr2[0] == 0)
            && (call.Some? ==> BoundedCopy(call.value.v0, ptr1, len) && BoundedCopy(call.value.v1, ptr2, len))
  {
    BoundedCopyFound(ptr1, len);
    BoundedCopyFound(ptr2, len);
    var n1, n2 := StrnLen(ptr1, Min(len, 31)), StrnLen(ptr2, Min(len, 31));
    var call := StrnCall(ptr1, ptr2, len, n1 + 1, n2 + 1);
    if call.Some? {
      CopyIsBounded(ptr1, len, call.value.v0);
      CopyIsBounded(ptr2, len, call.value.v1);
    }
  }

  lemma CopyIsBounded(p: seq<u8>, len: nat, v: seq<u8>)
    requires len > 0 && StrnLen(p, Min(len, 31)) < |p|
    requires v <= p && |v| == StrnCopied(p, len, StrnLen(p, Min(len, 31)) + 1)
    ensures BoundedCopy(v, p, len)
  {
    BoundedCopyFound(p, len);
    assert v == p[..|v|];
  }

  lemma BoundedCopyFound(p: seq<u8>, len: nat)
    requires len > 0 && StrnLen(p, Min(len, 31)) < |p|
    ensures var n := StrnCopied(p, len, StrnLen(p, Min(len, 31)) + 1);
            0 < n <= |p| && (n == 1 <==> p[0] == 0) && BoundedCopy(p[..n], p, len)
    ensures !ScansPast(p, len)
  {
    var n := StrnLen(p, Min(len, 31));
    PrefixIsCopy(p, if n < 31 then n + 1 else 31, len);
  }

  lemma PrefixIsCopy(p: seq<u8>, k: nat, len: nat)
    requires 0 < k <= |p| && k <= 31 && k <= len + 1 && forall i :: 0 <= i < k - 1 ==> p[i] != 0
    requires k < 31 && k <= len ==> p[k - 1] == 0
    ensures BoundedCopy(p[..k], p, len)
  {
  }

  ghost predicate BoundedCopy(v: seq<u8>, p: seq<u8>, len: nat) {
    && 0 < |v| <= 31 && |v| <= len + 1 && v <= p && 0 !in v[..|v| - 1]
    && (|v| < 31 && |v| <= len ==> v[|v| - 1] == 0)
  }

  /** Everything the hook reads is readable. */
  predicate StrnReads(ptr1: seq<u8>, ptr2: seq<u8>, len: nat, readable1: nat, readable2: nat) {
    var len1, len2 := StrnCopied(ptr1, len, readable1), StrnCopied(ptr2, len, readable2);
    len == 0 || (!ScansPast(ptr1, len) && !ScansPast(ptr2, len)
                 && (Max(len1, len2) < 2 || (len1 <= |ptr1| && len2 <= |ptr2|)))
  }

  /** Both length bytes tell the larger length, whatever was copied. */
  function StrnCall(ptr1: seq<u8>, ptr2: seq<u8>, len: nat, readable1: nat, readable2: nat): (r: Option<RtnCall>)
    requires StrnReads(ptr1, ptr2, len, readable1, readable2)
    requires readable1 <= StrnLen(ptr1, Min(len, 31)) + 1 && readable2 <= StrnLen(ptr2, Min(len, 31)) + 1
    ensures r.Some? ==> |r.value.v0| == StrnCopied(ptr1, len, readable1) <= 31
    ensures r.Some? ==> |r.value.v1| == StrnCopied(ptr2, len, readable2) <= 31
    ensures r.Some? ==> r.value.v0 <= ptr1 && r.value.v1 <= ptr2
    ensures r.Some? ==> r.value.v0Len == r.value.v1Len == 0x80 + Max(|r.value.v0|, |r.value.v1|)
  {
    var len1, len2 := StrnCopied(ptr1, len, readable1), StrnCopied(ptr2, len, readable2);
    var l := Max(len1, len2);
    if len == 0 || l < 2 then None
    else Some(RtnCall(l, ptr1[..len1], 0x80 + l, ptr2[..len2], 0x80 + l))
  }

  // ----- What the bounded string hook reads, and what it shows -----

  /** The validity of the second copy is asked about the first pointer. With true answers the first copy is always
      readable; the second one is, unless the readable memory behind the second pointer is exactly the `len` bytes
      compared, none of them zero, while one byte more was reported behind the first. */
  lemma SecondCopyReadable(ptr1: seq<u8>, ptr2: seq<u8>, len: nat, readable1: nat, readable2: nat)
    requires !ScansPast(ptr1, len) && !ScansPast(ptr2, len)
    requires readable1 <= StrnLen(ptr1, Min(len, 31)) + 1 && readable2 <= StrnLen(ptr2, Min(len, 31)) + 1
    requires readable1 <= |ptr1| && readable2 <= |ptr1|
    ensures StrnCopied(ptr1, len, readable1) <= |ptr1|
    ensures StrnCopied(ptr2, len, readable2) <= |ptr2| <==>
            !(|ptr2| == len < 31 && 0 !in ptr2 && readable2 == len + 1)
  {
    var n := StrnLen(ptr2, Min(len, 31));
    assert n < |ptr2| ==> ptr2[n] in ptr2;
  }

  /** The shortest way there: five bytes at the second pointer, six at the first. */
  lemma SecondCopyOverreads(ptr1: seq<u8>, ptr2: seq<u8>)
    requires ptr1 == [1, 2, 3, 4, 5, 6] && ptr2 == [1, 2, 3, 4, 5]
    ensures StrnLen(ptr1, 5) == 5 && !StrnReads(ptr1, ptr2, 5, 6, 6) && StrnCopied(ptr2, 5, 6) == 6 > |ptr2|
  {
    FullLength(ptr1, 5);
    FullLength(ptr2, 5);
  }

  lemma {:induction false} FullLength(p: seq<u8>, n: nat)
    requires n <= |p| && forall i :: 0 <= i < n ==> p[i] != 0
    ensures StrnLen(p, n) == n
  {
    if n > 0 {
      FullLength(p[1..], n - 1);
    }
  }

  /** The bytes that a slot announces. */
  function Shown(slot: FnOperands): (seq<u8>, seq<u8>)
    requires 0x80 <= slot.v0Len <= 0x80 + |slot.v0| && 0x80 <= slot.v1Len <= 0x80 + |slot.v1|
  {
    (slot.v0[..slot.v0Len - 0x80], slot.v1[..slot.v1Len - 0x80])
  }

  ghost predicate IsSlot(slot: FnOperands) {
    |slot.v0| == 31 && |slot.v1| == 31
  }

  /** A call announces no more than a slot holds. */
  ghost predicate Announces(call: RtnCall) {
    && |call.v0| <= 31 && |call.v1| <= 31
    && 0x80 + |call.v0| <= call.v0Len <= 0x80 + 31 && 0x80 + |call.v1| <= call.v1Len <= 0x80 + 31
  }

  /** What the slot shows is the work of this call alone, whatever the slot held before. */
  ghost predicate Determined(call: RtnCall)
    requires Announces(call)
  {
    forall held, held' :: IsSlot(held) && IsSlot(held') ==> Shown(Stored(call, held)) == Shown(Stored(call, held'))
  }

  /** That is so exactly when all announced bytes were copied. */
  lemma DeterminedIsCopied(call: RtnCall)
    requires Announces(call)
    ensures Determined(call) <==> call.v0Len == 0x80 + |call.v0| && call.v1Len == 0x80 + |call.v1|
  {
    var n0, n1 := |call.v0|, |call.v1|;
    if call.v0Len == 0x80 + n0 && call.v1Len == 0x80 + n1 {
      forall held | IsSlot(held)
        ensures Shown(Stored(call, held)) == (call.v0, call.v1)
      {
      }
    } else {
      var zeroes, ones := FnOperands(Filled(0), 0, Filled(0), 0), FnOperands(Filled(1), 0, Filled(1), 0);
      var a, b := Stored(call, zeroes), Stored(call, ones);
      if call.v0Len > 0x80 + n0 {
        assert a.v0[n0] == 0 && b.v0[n0] == 1;
        assert Shown(a).0[n0] == 0 && Shown(b).0[n0] == 1;
      } else {
        assert a.v1[n1] == 0 && b.v1[n1] == 1;
        assert Shown(a).1[n1] == 0 && Shown(b).1[n1] == 1;
      }
      assert Shown(a) != Shown(b);
    }
  }

  function Filled(b: u8): (s: seq<u8>)
    ensures |s| == 31 && forall i :: 0 <= i < 31 ==> s[i] == b
  {
    seq(31, i => b)
  }

  /** The bounded string hook shows only its own bytes exactly when both copies are equally long; where
      area_is_valid reports all it was asked for, that is when both strings end at the same place, or neither
      within 30 bytes. */
  lemma StrnShowsOwnBytes(ptr1: seq<u8>, ptr2: seq<u8>, len: nat, readable1: nat, readable2: nat)
    requires StrnReads(ptr1, ptr2, len, readable1, readable2)
    requires readable1 <= StrnLen(ptr1, Min(len, 31)) + 1 && readable2 <= StrnLen(ptr2, Min(len, 31)) + 1
    requires StrnCall(ptr1, ptr2, len, readable1, readable2).Some?
    ensures var call := StrnCall(ptr1, ptr2, len, readable1, readable2).value;
            var n1, n2 := StrnLen(ptr1, Min(len, 31)), StrnLen(ptr2, Min(len, 31));
            && Announces(call)
            && (Determined(call) <==> (if n1 < 31 then readable1 else 31) == (if n2 < 31 then readable2 else 31))
            && (readable1 == n1 + 1 && readable2 == n2 + 1 ==> (Determined(call) <==> Min(n1, 30) == Min(n2, 30)))
  {
    DeterminedIsCopied(StrnCall(ptr1, ptr2, len, readable1, readable2).value);
  }

  /** The unbounded string hook always shows only its own bytes. */
  lemma StrShowsOwnBytes(ptr1: Option<seq<u8>>, ptr2: Option<seq<u8>>)
    requires ptr1.Some? ==> StrnLen(ptr1.value, 30) < |ptr1.value|
    requires ptr2.Some? ==> StrnLen(ptr2.value, 30) < |ptr2.value|
    requires StrCall(ptr1, ptr2).Some?
    ensures Announces(StrCall(ptr1, ptr2).value) && Determined(StrCall(ptr1, ptr2).value)
  {
    DeterminedIsCopied(StrCall(ptr1, ptr2).value);
  }

  /** Five letters, and two. */
  const LONG: seq<u8> := [1, 2, 3, 4, 5, 0]
  const SHORT: seq<u8> := [7, 7, 0]

  lemma LettersFound()
    ensures StrnLen(LONG, 5) == 5 && StrnLen(SHORT, 5) == 2
  {
    FullLength(LONG, 5);
    assert SHORT[1..] == [7, 0] && SHORT[1..][1..] == [0];
    assert StrnLen(SHORT[1..][1..], 3) == 0;
    assert StrnLen(SHORT[1..], 4) == 1;
  }

  lemma LongCall()
    ensures StrnReads(LONG, LONG, 5, 6, 6)
    ensures StrnLen(LONG, 5) == 5 && StrnCall(LONG, LONG, 5, 6, 6) == Some(RtnCall(6, LONG, 0x86, LONG, 0x86))
  {
    LettersFound();
    assert LONG[..6] == LONG;
  }

  lemma ShortCall()
    ensures StrnReads(LONG, SHORT, 5, 6, 3)
    ensures StrnLen(LONG, 5) == 5 && StrnLen(SHORT, 5) == 2
    ensures StrnCall(LONG, SHORT, 5, 6, 3) == Some(RtnCall(6, LONG, 0x86, SHORT, 0x86))
  {
    LettersFound();
    assert LONG[..6] == LONG && SHORT[..3] == SHORT;
  }

  /** After i calls with five letters each. */
  ghost predicate FilledTo(key: Key, i: nat)
    reads key, key.ins, key.rtn
  {
    && key.Valid()
    && if i == 0 then key.kind.NoKind?
       else key.kind.Rtn? && |key.rtnCalls| == i && IsSlot(key.rtn[0]) && key.rtn[0].v1[..6] == LONG
  }

  method FillOne(key: Key, i: nat, overlay: seq<FnOperands>)
    requires i < 8 && FilledTo(key, i) && IsRow(overlay)
    modifies key, key.rtn
    ensures FilledTo(key, i + 1)
  {
    LongCall();
    ghost var row := if i == 0 then overlay else key.rtn[..];
    var _ := key.RtnHookStrn(LONG, LONG, 5, 6, 6, overlay);
    FirstSlot(row, i, RtnCall(6, LONG, 0x86, LONG, 0x86));
    assert key.rtn[..][0] == key.rtn[0];
  }

  /** Eight of them fill the row. */
  method FillRow(key: Key, overlay: seq<FnOperands>)
    requires key.Valid() && key.kind.NoKind? && IsRow(overlay)
    modifies key, key.rtn
    ensures key.Valid() && key.kind.Rtn? && |key.rtnCalls| == 8
    ensures IsSlot(key.rtn[0]) && key.rtn[0].v1[..6] == LONG
  {
    for i := 0 to 8
      invariant FilledTo(key, i)
    {
      FillOne(key, i, overlay);
    }
  }

  lemma FirstSlot(row: seq<FnOperands>, i: nat, call: RtnCall)
    requires IsRow(row) && i < 8 && call == RtnCall(6, LONG, 0x86, LONG, 0x86)
    ensures var slot := RowAfter(row, i, call)[0];
            IsSlot(slot) && (if i == 0 then slot.v1[..6] == LONG else slot == row[0])
  {
  }

  /** A ninth call compares five letters with two, and its slot then shows three bytes of the first. */
  method ShowStaleBytes(overlay: seq<FnOperands>) returns (key: Key)
    requires IsRow(overlay)
    ensures key.Valid() && key.kind.Rtn? && |key.rtnCalls| == 9 && key.rtnCalls[8].v1 == SHORT
    ensures IsSlot(key.rtn[0]) && key.rtn[0].v1Len == 0x80 + 6
    ensures key.rtn[0].v1[..6] == SHORT + LONG[3..]
  {
    key := new Key();
    FillRow(key, overlay);
    ghost var row := key.rtn[..];
    assert row[0] == key.rtn[0];
    ShortCall();
    var _ := key.RtnHookStrn(LONG, SHORT, 5, 6, 3, overlay);
    NinthSlot(row);
    assert key.rtn[..][0] == key.rtn[0];
  }

  lemma NinthSlot(row: seq<FnOperands>)
    requires IsRow(row) && row[0].v1[..6] == LONG
    ensures var slot := RowAfter(row, 8, RtnCall(6, LONG, 0x86, SHORT, 0x86))[0];
            IsSlot(slot) && slot.v1Len == 0x80 + 6 && slot.v1[..6] == SHORT + LONG[3..]
  {
    var held := row[0].v1;
    assert (SHORT + held[3..])[..6] == SHORT + held[..6][3..];
  }
}
