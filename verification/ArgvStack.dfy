/** The stack that a new program finds: argc, the argument pointers, NULL, and above them the strings. */
module ArgvStack {
  import opened Bytes

  const PAGES: nat := 16
  const STACK_BYTES: nat := 4096 * PAGES
  const USER_STACK_TOP: nat := 0x7FFF_FFFF_E000
  const BOTTOM: nat := USER_STACK_TOP - STACK_BYTES

  type Arg = seq<byte>

  /** The string as C stores it. */
  function CString(a: Arg): seq<byte> {
    a + [0]
  }

  /** The bytes that the arguments from `i` on take. */
  function Above(args: seq<Arg>, i: nat): nat
    requires i <= |args|
    decreases |args| - i
  {
    if i == |args| then 0 else |args[i]| + 1 + Above(args, i + 1)
  }

  /** Where the string of argument `i` lies, from the bottom of the stack. */
  function StringAt(args: seq<Arg>, i: nat): int
    requires i <= |args|
  {
    STACK_BYTES - Above(args, i)
  }

  lemma {:induction false} AboveShrinks(args: seq<Arg>, i: nat)
    requires i <= |args|
    ensures Above(args, i) <= Above(args, 0)
  {
    if i != 0 {
      AboveShrinks(args, i - 1);
    }
  }

  /** At most 16 arguments, of at most one page of bytes. */
  predicate ArgsOk(args: seq<Arg>) {
    1 <= |args| <= 16 && Above(args, 0) <= 4096
  }

  /** The string of argument `i` is in its place. */
  predicate StringHeld(stack: seq<byte>, args: seq<Arg>, i: nat)
    requires i < |args|
  {
    && 0 <= StringAt(args, i) && StringAt(args, i) + |args[i]| + 1 <= |stack|
    && stack[StringAt(args, i)..StringAt(args, i) + |args[i]| + 1] == CString(args[i])
  }

  /** The string of argument `i` ends where that of the next begins, or the stack ends. */
  predicate EndsBelowNext(args: seq<Arg>, i: nat)
    requires i < |args|
  {
    StringAt(args, i) + |args[i]| + 1 == StringAt(args, i + 1) <= STACK_BYTES
  }

  /** The word at `off` is `w`. */
  predicate WordHeld(stack: seq<byte>, off: int, w: int) {
    0 <= off && off + 8 <= |stack| && U64(stack, off) == w
  }

  /**
    What the entry code of a program relies on when it pops argc and takes the address of what follows as argv.
   */
  ghost predicate StackOk(stack: seq<byte>, sp: nat, args: seq<Arg>) {
    && |stack| == STACK_BYTES && sp % 8 == 0
    && WordHeld(stack, sp, |args|)
    && (forall i :: 0 <= i < |args| ==> WordHeld(stack, sp + 8 + 8 * i, BOTTOM + StringAt(args, i)))
    && WordHeld(stack, sp + 8 + 8 * |args|, 0)
    && (forall i :: 0 <= i < |args| ==> StringHeld(stack, args, i))
    // strings lie above the pointers, with no more than 7 bytes between, and one above the other
    && sp + 16 + 8 * |args| <= StringAt(args, 0) < sp + 24 + 8 * |args|
    && forall i :: 0 <= i < |args| ==> EndsBelowNext(args, i)
  }

  lemma SlotInPage(off: nat)
    requires off % 8 == 0
    ensures off % 4096 + 8 <= 4096
  {
    assert off % 4096 % 8 == 0;
  }

  /** Strings all lie in the top page. */
  lemma StringInTopPage(args: seq<Arg>, i: nat)
    requires ArgsOk(args) && i < |args|
    ensures STACK_BYTES - 4096 <= StringAt(args, i) && StringAt(args, i) + |args[i]| + 1 == StringAt(args, i + 1) <= STACK_BYTES
    ensures StringAt(args, i) % 4096 + |args[i]| + 1 <= 4096
  {
    AboveShrinks(args, i);
    TopPage(StringAt(args, i), |args[i]| + 1);
  }

  lemma TopPage(off: int, len: nat)
    requires STACK_BYTES - 4096 <= off && off + len <= STACK_BYTES && len > 0
    ensures off % 4096 + len <= 4096
  {
    assert off % 4096 == off - (STACK_BYTES - 4096);
  }

  lemma StringKept(stack: seq<byte>, off: nat, b: seq<byte>, args: seq<Arg>, i: nat)
    requires i < |args| && StringHeld(stack, args, i) && off + |b| <= |stack| && off + |b| <= StringAt(args, i)
    ensures StringHeld(Splice(stack, off, b), args, i)
  {
    var t, a, e := Splice(stack, off, b), StringAt(args, i), StringAt(args, i) + |args[i]| + 1;
    assert t[a..e] == stack[a..e];
  }

  lemma StringPut(stack: seq<byte>, args: seq<Arg>, i: nat)
    requires |stack| == STACK_BYTES && ArgsOk(args) && i < |args|
    ensures 0 <= StringAt(args, i) && StringAt(args, i) + |args[i]| + 1 <= |stack|
    ensures StringHeld(Splice(stack, StringAt(args, i), CString(args[i])), args, i)
  {
    StringInTopPage(args, i);
    var t, a := Splice(stack, StringAt(args, i), CString(args[i])), StringAt(args, i);
    assert t[a..a + |args[i]| + 1] == CString(args[i]);
  }

  lemma WordKept(stack: seq<byte>, off: nat, b: seq<byte>, o: int, w: int)
    requires WordHeld(stack, o, w) && off + |b| <= |stack| && off + |b| <= o
    ensures WordHeld(Splice(stack, off, b), o, w)
  {
    hide U32;
    U32Kept(stack, off, b, o);
    U32Kept(stack, off, b, o + 4);
  }

  lemma U32Kept(stack: seq<byte>, off: nat, b: seq<byte>, o: nat)
    requires off + |b| <= o && o + 4 <= |stack|
    ensures U32(Splice(stack, off, b), o) == U32(stack, o)
  {
  }

  lemma WordPut(stack: seq<byte>, off: nat, w: nat)
    requires off + 8 <= |stack| && w < 0x1_0000_0000_0000_0000
    ensures WordHeld(Splice(stack, off, Put64(w)), off, w)
  {
    var b, t := Put64(w), Splice(stack, off, Put64(w));
    assert forall k :: 0 <= k < 8 ==> t[off + k] == b[k];
    assert U32(t, off) == U32(b, 0) && U32(t, off + 4) == U32(b, 4);
  }

  // ---- The program's entry code.

  /** What the entry code hands to main, and the stack pointer that it calls it with. */
  datatype Registers = Registers(rdi: nat, rsi: nat, rsp: nat)

  /** Pops argc, takes the address of what follows as argv, and rounds the stack pointer down to 16. */
  function EntryCode(stack: seq<byte>, rsp: nat): (r: Registers)
    requires BOTTOM <= rsp && rsp - BOTTOM + 8 <= |stack|
  {
    var popped, rsp' := U64(stack, rsp - BOTTOM), rsp + 8;
    Registers(popped, rsp', rsp' / 16 * 16)
  }

  /** The bytes at address `a` are the string, NUL and all. */
  predicate StringAtAddress(stack: seq<byte>, a: nat, s: Arg) {
    && BOTTOM <= a && a - BOTTOM + |s| + 1 <= |stack|
    && stack[a - BOTTOM..a - BOTTOM + |s|] == s && stack[a - BOTTOM + |s|] == 0
  }

  /** The `i`-th word of the vector at `argv` is a pointer to the string. */
  predicate PointsToString(stack: seq<byte>, argv: nat, i: nat, s: Arg) {
    && BOTTOM <= argv && argv - BOTTOM + 8 * i + 8 <= |stack|
    && StringAtAddress(stack, U64(stack, argv - BOTTOM + 8 * i), s)
  }

  /**
    Main is called with the number of arguments and a vector of pointers to them that ends with NULL, on a
    16-aligned stack whose growth does not touch the vector.
   */
  lemma MainSeesArguments(stack: seq<byte>, sp: nat, args: seq<Arg>)
    requires BOTTOM <= sp && StackOk(stack, sp - BOTTOM, args)
    ensures sp - BOTTOM + 8 <= |stack|
    ensures
      var r := EntryCode(stack, sp);
      && r.rdi == |args| && r.rsp % 16 == 0 && r.rsp <= r.rsi < r.rsp + 16
      && (forall i :: 0 <= i < |args| ==> PointsToString(stack, r.rsi, i, args[i]))
      && WordHeld(stack, r.rsi - BOTTOM + 8 * |args|, 0)
  {
    hide U64, StringHeld, WordHeld;
    assert WordHeld(stack, sp - BOTTOM, |args|);
    ReadWord(stack, sp - BOTTOM, |args|);
    forall i | 0 <= i < |args| ensures PointsToString(stack, sp + 8, i, args[i]) {
      assert WordHeld(stack, sp - BOTTOM + 8 + 8 * i, BOTTOM + StringAt(args, i));
      ReadWord(stack, sp - BOTTOM + 8 + 8 * i, BOTTOM + StringAt(args, i));
      assert StringHeld(stack, args, i);
      ReadString(stack, args, i);
    }
  }

  lemma ReadWord(stack: seq<byte>, off: int, w: int)
    requires WordHeld(stack, off, w)
    ensures 0 <= off && off + 8 <= |stack| && U64(stack, off) == w
  {
  }

  lemma ReadString(stack: seq<byte>, args: seq<Arg>, i: nat)
    requires i < |args| && StringHeld(stack, args, i)
    ensures StringAt(args, i) >= 0 && StringAtAddress(stack, BOTTOM + StringAt(args, i), args[i])
  {
    var a, n := StringAt(args, i), |args[i]|;
    var t := stack[a..a + n + 1];
    assert t[..n] == args[i] && t[n] == 0;
    assert stack[a..a + n] == t[..n];
  }
}
