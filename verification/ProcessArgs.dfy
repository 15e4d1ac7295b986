/** The argument block that kernel/src/usermode.c builds on a new process's stack: processPush,
    processPushStr, setProcessArgs. */
module ProcessArgs {
  import opened BitStream

  const FRAME_4KB: nat := 0x1000
  const STACK_TOP_OFFSET: nat := 0xF00
  const STACK_TOP_INDEX: nat := 959        // STACK_TOP_OFFSET / 4 - 1
  const MAX_ARGS: nat := 64
  const MAX_ARG_LENGTH: nat := 256
  const VIRTUAL_STACK: nat := 0x4000

  type uint32 = x: int | 0 <= x < 0x1_0000_0000

  // ------------------------------------------------------------ what the process will read

  /** The little-endian word at byte i. */
  function WordAt(m: seq<byte>, i: nat): nat
    requires i + 4 <= |m|
  {
    (m[i] as int) + 0x100 * (m[i + 1] as int) + 0x1_0000 * (m[i + 2] as int) + 0x100_0000 * (m[i + 3] as int)
  }

  /** s stands at byte i, followed by a NUL. */
  ghost predicate StringAt(m: seq<byte>, i: nat, s: seq<byte>) {
    i + |s| + 1 <= |m| && m[i .. i + |s|] == s && m[i + |s|] == 0
  }

  /** Pointer i of the vector at byte v leads to a copy of args[i] between lo and the stack's top. */
  ghost predicate PointerAt(m: seq<byte>, v: nat, i: nat, s: seq<byte>, lo: nat) {
    v + 4 * i + 4 <= |m| &&
    var p := WordAt(m, v + 4 * i);
    p >= VIRTUAL_STACK + lo && p - VIRTUAL_STACK + |s| + 1 <= STACK_TOP_OFFSET && StringAt(m, p - VIRTUAL_STACK, s)
  }

  /** The stack that main expects: argc, a pointer to the vector right above it, the vector of
      pointers to copies of the arguments, and a null pointer. The copies lie above the vector. */
  ghost predicate ArgumentBlock(m: seq<byte>, esp: nat, args: seq<seq<byte>>) {
    esp >= VIRTUAL_STACK && |m| == FRAME_4KB &&
    var o := esp - VIRTUAL_STACK;
    o % 4 == 0 && o + 12 + 4 * |args| <= STACK_TOP_OFFSET &&
    WordAt(m, o) == |args| &&
    WordAt(m, o + 4) == esp + 8 &&
    (forall i: nat | i < |args| :: PointerAt(m, o + 8, i, args[i], o + 12 + 4 * |args|)) &&
    WordAt(m, o + 8 + 4 * |args|) == 0
  }

  // ------------------------------------------------------------------------------- room

  function RoundUp(n: nat): nat {
    (n + 3) / 4 * 4
  }

  /** Bytes that the strings take. */
  function StringsSize(args: seq<seq<byte>>): nat {
    if args == [] then 0 else StringsSize(args[..|args| - 1]) + RoundUp(|args[|args| - 1]| + 1)
  }

  function BlockSize(args: seq<seq<byte>>): nat {
    StringsSize(args) + 4 * (|args| + 1) + 8
  }

  /** What setProcessArgs stops at: too many arguments, or one that is too long. */
  predicate Accepted(args: seq<seq<byte>>) {
    |args| < MAX_ARGS && forall i | 0 <= i < |args| :: |args[i]| + 1 < MAX_ARG_LENGTH
  }

  lemma {:induction false} SizeOfPrefix(args: seq<seq<byte>>, i: nat)
    requires i <= |args|
    ensures StringsSize(args[..i]) <= StringsSize(args)
    ensures i < |args| ==> StringsSize(args[..i + 1]) == StringsSize(args[..i]) + RoundUp(|args[i]| + 1)
    decreases |args|
  {
    if i < |args| {
      assert args[..i + 1][..i] == args[..i];
      SizeOfPrefix(args[..|args| - 1], i);
      assert args[..|args| - 1][..i] == args[..i];
    } else {
      assert args[..i] == args;
    }
  }

  // ------------------------------------------------------------------------------ bytes

  function ByteOf(w: uint32, k: nat): byte
    requires k < 4
  {
    if k == 0 then w % 0x100 else if k == 1 then w / 0x100 % 0x100 else if k == 2 then w / 0x1_0000 % 0x100 else w / 0x100_0000
  }

  lemma WordOfBytes(w: uint32)
    ensures ByteOf(w, 0) + 0x100 * ByteOf(w, 1) + 0x1_0000 * ByteOf(w, 2) + 0x100_0000 * ByteOf(w, 3) == w
  {
  }

  /** The bytes from lo on are as before. */
  ghost predicate SameFrom(m: seq<byte>, m': seq<byte>, lo: nat) {
    |m| == |m'| && forall k | lo <= k < |m| :: m'[k] == m[k]
  }

  lemma WordKept(m: seq<byte>, m': seq<byte>, lo: nat, i: nat)
    requires SameFrom(m, m', lo) && lo <= i && i + 4 <= |m|
    ensures WordAt(m', i) == WordAt(m, i)
  {
  }

  lemma StringKept(m: seq<byte>, m': seq<byte>, lo: nat, i: nat, s: seq<byte>)
    requires SameFrom(m, m', lo) && lo <= i && StringAt(m, i, s)
    ensures StringAt(m', i, s)
  {
    assert m'[i .. i + |s|] == m[i .. i + |s|];
  }

  // -------------------------------------------------------------------------- the stack

  class ProcessStack {
    const physicalStack: array<byte>
    var esp: nat

    ghost predicate Valid()
      reads this, physicalStack
    {
      physicalStack.Length == FRAME_4KB && VIRTUAL_STACK <= esp <= VIRTUAL_STACK + STACK_TOP_OFFSET && esp % 4 == 0
    }

    /** A cleared page. */
    constructor ()
      ensures Valid() && fresh(physicalStack) && esp == VIRTUAL_STACK + STACK_TOP_OFFSET
    {
      physicalStack := new byte[FRAME_4KB](i => 0);
      esp := VIRTUAL_STACK + STACK_TOP_OFFSET;
    }

    /** A word goes right below the stack pointer. */
    method ProcessPush(value: uint32) returns (r: nat)
      requires Valid() && esp >= VIRTUAL_STACK + 4
      modifies this`esp, physicalStack
      ensures Valid() && esp == old(esp) - 4 && r == old(esp)
      ensures WordAt(physicalStack[..], esp - VIRTUAL_STACK) == value
      ensures SameFrom(old(physicalStack[..]), physicalStack[..], old(esp) - VIRTUAL_STACK)
    {
      var top := VIRTUAL_STACK + STACK_TOP_OFFSET;
      var offset := (top - esp) / 4;
      var at := 4 * (STACK_TOP_INDEX - offset);
      assert at == esp - 4 - VIRTUAL_STACK;
      WordOfBytes(value);
      hide ByteOf;
      for k := 0 to 4
        invariant esp == old(esp)
        invariant forall i | 0 <= i < k :: physicalStack[at + i] == ByteOf(value, i)
        invariant SameFrom(old(physicalStack[..]), physicalStack[..], old(esp) - VIRTUAL_STACK)
      {
        physicalStack[at + k] := ByteOf(value, k);
      }
      esp := esp - 4;
      r := esp + 4;
    }

    /** A string and its NUL go below the stack pointer, which then moves down to a multiple of four.
        ok is false where the source stops for good. */
    method ProcessPushStr(str: seq<byte>) returns (ok: bool, r: nat)
      requires Valid() && esp >= VIRTUAL_STACK + RoundUp(|str| + 1)
      modifies this`esp, physicalStack
      ensures Valid() && (ok <==> |str| + 1 < MAX_ARG_LENGTH)
      ensures ok ==> esp == old(esp) - RoundUp(|str| + 1) && esp <= r && r + |str| + 1 == old(esp)
      ensures ok ==> StringAt(physicalStack[..], r - VIRTUAL_STACK, str)
      ensures SameFrom(old(physicalStack[..]), physicalStack[..], old(esp) - VIRTUAL_STACK)
    {
      var top := VIRTUAL_STACK + STACK_TOP_OFFSET;
      var offset := top - esp;
      var len := |str| + 1;
      if len >= MAX_ARG_LENGTH {
        return false, 0;
      }
      ok := true;
      RoundUpIs(len, esp);
      var at := STACK_TOP_OFFSET - offset - len;
      for k := 0 to len
        invariant esp == old(esp)
        invariant forall i | 0 <= i < k && i < |str| :: physicalStack[at + i] == str[i]
        invariant k == len ==> physicalStack[at + |str|] == 0
        invariant SameFrom(old(physicalStack[..]), physicalStack[..], old(esp) - VIRTUAL_STACK)
      {
        physicalStack[at + k] := if k < |str| then str[k] else 0;
      }
      assert physicalStack[..][at .. at + |str|] == str;
      esp := esp - len;
      r := esp;
      esp := esp - esp % 4;
    }

    /** Strings, null pointer, pointers from the last to the first, vector, count: afterwards the
        process finds its arguments at its stack pointer, whatever they are, if they fit. */
    method SetProcessArgs(args: seq<seq<byte>>) returns (ok: bool)
      requires Valid() && esp == VIRTUAL_STACK + STACK_TOP_OFFSET && BlockSize(args) <= STACK_TOP_OFFSET
      modifies this`esp, physicalStack
      ensures ok <==> Accepted(args)
      ensures ok ==> Valid() && ArgumentBlock(physicalStack[..], esp, args)
      ensures ok ==> esp == VIRTUAL_STACK + STACK_TOP_OFFSET - BlockSize(args)
      ensures SameFrom(old(physicalStack[..]), physicalStack[..], STACK_TOP_OFFSET)
    {
      hide Copied, PointerAt, StringAt, ArgumentBlock, StringsSize, WordAt;
      var argCount := |args|;
      if argCount >= MAX_ARGS {
        return false;
      }
      var strPointers := new nat[argCount];
      ok := PushStrings(args, strPointers);
      if !ok {
        return;
      }
      ghost var m0 := physicalStack[..];
      var _ := ProcessPush(0);
      forall i | 0 <= i < |args| ensures Copied(physicalStack[..], strPointers[i], args[i], esp + 4) {
        CopiedKept(m0, physicalStack[..], strPointers[i], args[i], esp + 4, esp + 4);
      }
      PushPointers(args, strPointers);
      ghost var m := physicalStack[..];
      var vector := esp;
      var _ := ProcessPush(vector);
      ghost var m1 := physicalStack[..];
      var _ := ProcessPush(argCount);
      BlockDone(m, m1, physicalStack[..], esp, args);
    }

    /** The first loop of setProcessArgs. */
    method PushStrings(args: seq<seq<byte>>, strPointers: array<nat>) returns (ok: bool)
      requires Valid() && esp == VIRTUAL_STACK + STACK_TOP_OFFSET && BlockSize(args) <= STACK_TOP_OFFSET
      requires strPointers.Length == |args| && (strPointers as object) != physicalStack
      modifies this`esp, physicalStack, strPointers
      ensures ok <==> forall i | 0 <= i < |args| :: |args[i]| + 1 < MAX_ARG_LENGTH
      ensures ok ==> Valid() && esp == VIRTUAL_STACK + STACK_TOP_OFFSET - StringsSize(args)
      ensures ok ==> forall i | 0 <= i < |args| :: Copied(physicalStack[..], strPointers[i], args[i], esp)
      ensures SameFrom(old(physicalStack[..]), physicalStack[..], STACK_TOP_OFFSET)
    {
      hide Copied, RoundUp, SameFrom, StringsSize;
      SizeOfPrefix(args, 0);
      SameSelf(physicalStack[..], STACK_TOP_OFFSET);
      NoStrings();
      ghost var all := physicalStack[..];
      for i := 0 to |args|
        invariant Valid() && esp == VIRTUAL_STACK + STACK_TOP_OFFSET - StringsSize(args[..i])
        invariant forall k | 0 <= k < i :: |args[k]| + 1 < MAX_ARG_LENGTH
        invariant forall k | 0 <= k < i :: Copied(physicalStack[..], strPointers[k], args[k], esp)
        invariant SameFrom(old(physicalStack[..]), physicalStack[..], STACK_TOP_OFFSET)
      {
        SizeOfPrefix(args, i);
        SizeOfPrefix(args, i + 1);
        ghost var m, top := physicalStack[..], esp;
        ok, strPointers[i] := ProcessPushStr(args[i]);
        SameThrough(all, m, physicalStack[..], top - VIRTUAL_STACK);
        if !ok {
          return;
        }
        CopiedIntro(physicalStack[..], strPointers[i], args[i], esp);
        forall k | 0 <= k < i ensures Copied(physicalStack[..], strPointers[k], args[k], esp) {
          CopiedKept(m, physicalStack[..], strPointers[k], args[k], top, esp);
        }
      }
      assert args[..|args|] == args;
      ok := true;
    }

    /** The second loop of setProcessArgs, from the last pointer to the first. */
    method PushPointers(args: seq<seq<byte>>, strPointers: array<nat>)
      requires Valid() && strPointers.Length == |args| && (strPointers as object) != physicalStack
      requires esp - VIRTUAL_STACK + 4 <= STACK_TOP_OFFSET && esp >= VIRTUAL_STACK + 4 * |args| + 8
      requires forall i | 0 <= i < |args| :: Copied(physicalStack[..], strPointers[i], args[i], esp + 4)
      requires WordAt(physicalStack[..], esp - VIRTUAL_STACK) == 0
      modifies this`esp, physicalStack
      ensures Valid() && esp == old(esp) - 4 * |args|
      ensures forall i: nat | i < |args| :: PointerAt(physicalStack[..], esp - VIRTUAL_STACK, i, args[i], esp - VIRTUAL_STACK + 4 + 4 * |args|)
      ensures WordAt(physicalStack[..], old(esp) - VIRTUAL_STACK) == 0
      ensures SameFrom(old(physicalStack[..]), physicalStack[..], old(esp) - VIRTUAL_STACK)
    {
      hide Copied, PointerAt, StringAt;
      ghost var m0, o, v := physicalStack[..], esp - VIRTUAL_STACK, esp - 4 * |args| - VIRTUAL_STACK;
      for i := 0 to |args|
        invariant Valid() && esp == old(esp) - 4 * i
        invariant SameFrom(m0, physicalStack[..], o)
        invariant forall k: nat | |args| - i <= k < |args| :: PointerAt(physicalStack[..], v, k, args[k], o + 4)
      {
        var j := |args| - i - 1;
        ghost var m, top := physicalStack[..], esp - VIRTUAL_STACK;
        CopiedKept(m0, m, strPointers[j], args[j], o + VIRTUAL_STACK + 4, o + VIRTUAL_STACK + 4);
        CopiedRange(m, strPointers[j], args[j], o + VIRTUAL_STACK + 4);
        var _ := ProcessPush(strPointers[j]);
        assert v + 4 * j == esp - VIRTUAL_STACK;
        PointerIntro(m, physicalStack[..], top, v, j, args[j], strPointers[j], o + 4);
        forall k: nat | |args| - i <= k < |args| ensures PointerAt(physicalStack[..], v, k, args[k], o + 4) {
          PointerKept(m, physicalStack[..], top, v, k, args[k], o + 4);
        }
      }
      WordKept(m0, physicalStack[..], o, o);
    }
  }

  lemma NoStrings()
    ensures StringsSize([]) == 0
  {
  }

  lemma SameSelf(m: seq<byte>, lo: nat)
    ensures SameFrom(m, m, lo)
  {
  }

  lemma SameThrough(m0: seq<byte>, m1: seq<byte>, m2: seq<byte>, lo: nat)
    requires SameFrom(m0, m1, STACK_TOP_OFFSET) && SameFrom(m1, m2, lo) && lo <= STACK_TOP_OFFSET
    ensures SameFrom(m0, m2, STACK_TOP_OFFSET)
  {
  }

  lemma RoundUpIs(len: nat, esp: nat)
    requires esp % 4 == 0 && len <= esp
    ensures esp - len - (esp - len) % 4 == esp - RoundUp(len)
    ensures RoundUp(len) >= len
  {
  }

  /** A copy of s at address p, not below the address lo. */
  ghost predicate Copied(m: seq<byte>, p: nat, s: seq<byte>, lo: nat) {
    VIRTUAL_STACK <= lo <= p && p - VIRTUAL_STACK + |s| + 1 <= STACK_TOP_OFFSET && StringAt(m, p - VIRTUAL_STACK, s)
  }

  lemma CopiedIntro(m: seq<byte>, p: nat, s: seq<byte>, lo: nat)
    requires VIRTUAL_STACK <= lo <= p && p - VIRTUAL_STACK + |s| + 1 <= STACK_TOP_OFFSET && StringAt(m, p - VIRTUAL_STACK, s)
    ensures Copied(m, p, s, lo)
  {
  }

  lemma CopiedKept(m: seq<byte>, m': seq<byte>, p: nat, s: seq<byte>, lo: nat, lo': nat)
    requires Copied(m, p, s, lo) && VIRTUAL_STACK <= lo' <= lo && SameFrom(m, m', lo - VIRTUAL_STACK)
    ensures Copied(m', p, s, lo')
  {
    StringKept(m, m', lo - VIRTUAL_STACK, p - VIRTUAL_STACK, s);
  }

  lemma CopiedRange(m: seq<byte>, p: nat, s: seq<byte>, lo: nat)
    requires Copied(m, p, s, lo)
    ensures VIRTUAL_STACK <= lo <= p < 0x5000 && p - VIRTUAL_STACK + |s| + 1 <= STACK_TOP_OFFSET && StringAt(m, p - VIRTUAL_STACK, s)
  {
  }

  lemma PointerIntro(m: seq<byte>, m': seq<byte>, top: nat, v: nat, j: nat, s: seq<byte>, p: nat, lo: nat)
    requires SameFrom(m, m', top) && top <= lo && v + 4 * j + 4 <= |m'| && WordAt(m', v + 4 * j) == p
    requires p >= VIRTUAL_STACK + lo && p - VIRTUAL_STACK + |s| + 1 <= STACK_TOP_OFFSET && StringAt(m, p - VIRTUAL_STACK, s)
    ensures PointerAt(m', v, j, s, lo)
  {
    StringKept(m, m', top, p - VIRTUAL_STACK, s);
  }

  lemma PointerKept(m: seq<byte>, m': seq<byte>, top: nat, v: nat, k: nat, s: seq<byte>, lo: nat)
    requires SameFrom(m, m', top) && top <= v + 4 * k && top <= lo && PointerAt(m, v, k, s, lo)
    ensures PointerAt(m', v, k, s, lo)
  {
    hide StringAt;
    WordKept(m, m', top, v + 4 * k);
    StringKept(m, m', top, WordAt(m, v + 4 * k) - VIRTUAL_STACK, s);
  }

  /** The last two pushes leave the vector and the copies alone. */
  lemma BlockDone(m: seq<byte>, m1: seq<byte>, m2: seq<byte>, esp: nat, args: seq<seq<byte>>)
    requires esp >= VIRTUAL_STACK && esp % 4 == 0 && |m| == FRAME_4KB && esp - VIRTUAL_STACK + 12 + 4 * |args| <= STACK_TOP_OFFSET
    requires SameFrom(m, m1, esp - VIRTUAL_STACK + 8) && SameFrom(m1, m2, esp - VIRTUAL_STACK + 4)
    requires WordAt(m1, esp - VIRTUAL_STACK + 4) == esp + 8 && WordAt(m2, esp - VIRTUAL_STACK) == |args|
    requires forall i: nat | i < |args| :: PointerAt(m, esp - VIRTUAL_STACK + 8, i, args[i], esp - VIRTUAL_STACK + 12 + 4 * |args|)
    requires WordAt(m, esp - VIRTUAL_STACK + 8 + 4 * |args|) == 0
    ensures ArgumentBlock(m2, esp, args)
  {
    hide PointerAt, WordAt;
    var o := esp - VIRTUAL_STACK;
    assert SameFrom(m, m2, o + 8);
    hide SameFrom;
    WordKept(m1, m2, o + 4, o + 4);
    WordKept(m, m2, o + 8, o + 8 + 4 * |args|);
    forall i: nat | i < |args| ensures PointerAt(m2, o + 8, i, args[i], o + 12 + 4 * |args|) {
      PointerKept(m, m2, o + 8, o + 8, i, args[i], o + 12 + 4 * |args|);
    }
  }
}
