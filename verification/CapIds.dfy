/** Capability ids: rights in the low four bits, the weak bit, five bits of object type, and a unique
    base above them, in one 64-bit word. */
module CapIds {
  import opened Wrappers

  datatype CapId = CapId(bits: nat)

  datatype Right = Read | Prod | Write | Upgrade

  type Rights = set<Right>

  const ALL: Rights := {Read, Prod, Write, Upgrade}
  const BASE_LIMIT: nat := 0x40_0000_0000_0000

  datatype CapType =
    | Thread | ThreadGroup | AddressSpace | CapabilitySpace | Memory | Lock | EventPool | Channel | Reply
    | MessageCapacity | Key | Allocator | DropCheck | DropCheckReciever | RootOom | MmioAllocator | PhysMem
    | IntAllocator | Interrupt

  function Code(t: CapType): nat {
    match t
    case Thread => 1
    case ThreadGroup => 2
    case AddressSpace => 3
    case CapabilitySpace => 4
    case Memory => 5
    case Lock => 6
    case EventPool => 7
    case Channel => 8
    case Reply => 9
    case MessageCapacity => 10
    case Key => 11
    case Allocator => 12
    case DropCheck => 13
    case DropCheckReciever => 14
    case RootOom => 15
    case MmioAllocator => 16
    case PhysMem => 17
    case IntAllocator => 18
    case Interrupt => 19
  }

  /** `CapType::from`. */
  function TypeFrom(n: nat): (r: Option<CapType>)
    ensures r.Some? <==> 1 <= n <= 19
    ensures r.Some? ==> Code(r.value) == n
  {
    match n
    case 1 => Some(Thread)
    case 2 => Some(ThreadGroup)
    case 3 => Some(AddressSpace)
    case 4 => Some(CapabilitySpace)
    case 5 => Some(Memory)
    case 6 => Some(Lock)
    case 7 => Some(EventPool)
    case 8 => Some(Channel)
    case 9 => Some(Reply)
    case 10 => Some(MessageCapacity)
    case 11 => Some(Key)
    case 12 => Some(Allocator)
    case 13 => Some(DropCheck)
    case 14 => Some(DropCheckReciever)
    case 15 => Some(RootOom)
    case 16 => Some(MmioAllocator)
    case 17 => Some(PhysMem)
    case 18 => Some(IntAllocator)
    case 19 => Some(Interrupt)
    case _ => None
  }

  function Bit(b: bool): nat { if b then 1 else 0 }

  function RightBits(r: Rights): nat {
    Bit(Read in r) + 2 * Bit(Prod in r) + 4 * Bit(Write in r) + 8 * Bit(Upgrade in r)
  }

  /** `CapId::new`; shifting the base drops what does not fit the word. */
  function NewId(t: CapType, rights: Rights, weak: bool, base: nat): CapId {
    CapId(RightBits(rights) + 16 * Bit(weak) + 32 * Code(t) + 1024 * (base % BASE_LIMIT))
  }

  /** `CapId::null_flags`. */
  function NullFlags(rights: Rights, weak: bool): CapId { CapId(RightBits(rights) + 16 * Bit(weak)) }

  /** `CapFlags::from_bits_truncate`. */
  function RightsOf(id: CapId): Rights {
    (if id.bits % 2 == 1 then {Read} else {}) + (if id.bits / 2 % 2 == 1 then {Prod} else {}) +
    (if id.bits / 4 % 2 == 1 then {Write} else {}) + (if id.bits / 8 % 2 == 1 then {Upgrade} else {})
  }

  predicate IsWeak(id: CapId) { id.bits / 16 % 2 == 1 }

  function TypeOf(id: CapId): Option<CapType> { TypeFrom(id.bits / 32 % 32) }

  function BaseOf(id: CapId): nat { id.bits / 1024 }

  /** `CapId::try_from`. */
  function TryFrom(n: nat): Option<CapId> { if TypeOf(CapId(n)).Some? then Some(CapId(n)) else None }

  lemma {:induction false} LowBits(r: Rights, rest: nat)
    ensures RightsOf(CapId(RightBits(r) + 16 * rest)) == r
    ensures (RightBits(r) + 16 * rest) / 16 == rest
  {
    var id := RightBits(r) + 16 * rest;
    Nibble(Bit(Read in r), Bit(Prod in r), Bit(Write in r), Bit(Upgrade in r), rest);
    hide RightBits;
    forall x ensures x in RightsOf(CapId(id)) <==> x in r {
      match x { case Read => case Prod => case Write => case Upgrade => }
    }
  }

  lemma {:induction false} Nibble(a: nat, b: nat, c: nat, d: nat, rest: nat)
    requires a <= 1 && b <= 1 && c <= 1 && d <= 1
    ensures var n := a + 2 * b + 4 * c + 8 * d + 16 * rest;
            n % 2 == a && n / 2 % 2 == b && n / 4 % 2 == c && n / 8 % 2 == d && n / 16 == rest
  {
    var n := a + 2 * b + 4 * c + 8 * d + 16 * rest;
    SplitBit(a, b + 2 * c + 4 * d + 8 * rest);
    assert n / 2 == b + 2 * c + 4 * d + 8 * rest;
    SplitBit(b, c + 2 * d + 4 * rest);
    assert n / 4 == n / 2 / 2 == c + 2 * d + 4 * rest;
    SplitBit(c, d + 2 * rest);
    assert n / 8 == n / 4 / 2 == d + 2 * rest;
    SplitBit(d, rest);
    assert n / 16 == n / 8 / 2 == rest;
  }

  lemma {:induction false} SplitBit(x: nat, y: nat)
    requires x <= 1
    ensures (x + 2 * y) / 2 == y && (x + 2 * y) % 2 == x
  {
  }

  /** Everything packed into an id is read back. */
  lemma {:induction false} NewIdSpec(t: CapType, rights: Rights, weak: bool, base: nat)
    ensures var id := NewId(t, rights, weak, base);
            && RightsOf(id) == rights && IsWeak(id) == weak && TypeOf(id) == Some(t) && BaseOf(id) == base % BASE_LIMIT
            && TryFrom(id.bits) == Some(id)
  {
    var id := NewId(t, rights, weak, base).bits;
    var b := base % BASE_LIMIT;
    var rest := Bit(weak) + 2 * Code(t) + 64 * b;
    assert id == RightBits(rights) + 16 * rest;
    LowBits(rights, rest);
    hide RightBits, RightsOf;
    assert id / 16 == rest;
    assert 1 <= Code(t) <= 19;
    assert id / 32 == Code(t) + 32 * b;
    assert id / 1024 == b;
    assert id / 32 % 32 == Code(t);
    CodeInjective(TypeFrom(Code(t)).value, t);
  }

  lemma {:induction false} CodeInjective(a: CapType, b: CapType)
    requires Code(a) == Code(b)
    ensures a == b
  {
  }

  lemma {:induction false} NullFlagsSpec(rights: Rights, weak: bool)
    ensures RightsOf(NullFlags(rights, weak)) == rights && IsWeak(NullFlags(rights, weak)) == weak
    ensures TypeOf(NullFlags(rights, weak)).None?
  {
    LowBits(rights, Bit(weak));
  }

  /** Two ids are equal exactly when all their parts are and the bases agree in the bits that fit. */
  lemma {:induction false} NewIdInjective(t: CapType, r: Rights, w: bool, b: nat, t': CapType, r': Rights, w': bool,
                                          b': nat)
    ensures NewId(t, r, w, b) == NewId(t', r', w', b') <==>
            t == t' && r == r' && w == w' && b % BASE_LIMIT == b' % BASE_LIMIT
  {
    hide RightsOf, IsWeak, TypeOf, BaseOf, RightBits, Code;
    NewIdSpec(t, r, w, b);
    NewIdSpec(t', r', w', b');
  }

  /** The object types in the order of their numbers, from 1. */
  function Numbered(): seq<CapType> {
    [Thread, ThreadGroup, AddressSpace, CapabilitySpace, Memory, Lock, EventPool, Channel, Reply, MessageCapacity, Key,
     Allocator, DropCheck, DropCheckReciever, RootOom, MmioAllocator, PhysMem, IntAllocator, Interrupt]
  }

  /** What the bits of a word say: a right each for bits 0 to 3, the weak flag in bit 4, the number of the type in
      bits 5 to 9, the base in the 54 bits above. */
  ghost predicate Says(n: nat, t: CapType, rights: Rights, weak: bool, base: nat) {
    && (n % 2 == 1 <==> Read in rights) && (n / 2 % 2 == 1 <==> Prod in rights)
    && (n / 4 % 2 == 1 <==> Write in rights) && (n / 8 % 2 == 1 <==> Upgrade in rights)
    && (n / 16 % 2 == 1 <==> weak) && 1 <= n / 32 % 32 <= 19 && Numbered()[n / 32 % 32 - 1] == t
    && n / 1024 == base
  }

  lemma {:induction false} InBits(n: nat)
    ensures n == n % 2 + 2 * (n / 2 % 2) + 4 * (n / 4 % 2) + 8 * (n / 8 % 2) + 16 * (n / 16)
    ensures n / 16 == n / 16 % 2 + 2 * (n / 32 % 32) + 64 * (n / 1024)
  {
    assert n / 2 / 2 == n / 4 && n / 4 / 2 == n / 8 && n / 8 / 2 == n / 16;
    assert n / 16 / 2 == n / 32 && n / 32 / 32 == n / 1024;
  }

  lemma {:induction false} NumberedCode(t: CapType, i: nat)
    ensures Code(t) == i <==> 1 <= i <= 19 && Numbered()[i - 1] == t
    ensures TypeFrom(i) == Some(t) <==> Code(t) == i
  {
  }

  lemma {:induction false} RightBitsOf(n: nat, rights: Rights)
    ensures RightBits(rights) == n % 2 + 2 * (n / 2 % 2) + 4 * (n / 4 % 2) + 8 * (n / 8 % 2) <==>
            && (n % 2 == 1 <==> Read in rights) && (n / 2 % 2 == 1 <==> Prod in rights)
            && (n / 4 % 2 == 1 <==> Write in rights) && (n / 8 % 2 == 1 <==> Upgrade in rights)
  {
  }

  /** Two such sums agree exactly in their digits. */
  lemma {:induction false} SameDigits(a: nat, b: nat, c: nat, d: nat, a': nat, b': nat, c': nat, d': nat)
    requires a < 16 && b < 2 && c < 32 && a' < 16 && b' < 2 && c' < 32
    ensures a + 16 * b + 32 * c + 1024 * d == a' + 16 * b' + 32 * c' + 1024 * d' <==>
            a == a' && b == b' && c == c' && d == d'
  {
  }

  lemma {:induction false} SaysDigits(n: nat, t: CapType, rights: Rights, weak: bool, base: nat)
    ensures Says(n, t, rights, weak, base) <==>
            && RightBits(rights) == n % 2 + 2 * (n / 2 % 2) + 4 * (n / 4 % 2) + 8 * (n / 8 % 2)
            && Bit(weak) == n / 16 % 2 && Code(t) == n / 32 % 32 && base == n / 1024
  {
    hide Numbered, Code, TypeFrom, RightBits;
    NumberedCode(t, n / 32 % 32);
    RightBitsOf(n, rights);
  }

  lemma {:induction false} IdDigits(t: CapType, rights: Rights, weak: bool, base: nat)
    requires base < 0x40_0000_0000_0000
    ensures RightBits(rights) < 16 && Code(t) < 32
    ensures NewId(t, rights, weak, base).bits == RightBits(rights) + 16 * Bit(weak) + 32 * Code(t) + 1024 * base
  {
  }

  /** A word is the id made of these parts exactly when its bits say so. */
  lemma {:induction false} NewIdBits(n: nat, t: CapType, rights: Rights, weak: bool, base: nat)
    requires base < 0x40_0000_0000_0000
    ensures NewId(t, rights, weak, base) == CapId(n) <==> Says(n, t, rights, weak, base)
  {
    hide Says, Code, RightBits, NewId;
    SaysDigits(n, t, rights, weak, base);
    IdDigits(t, rights, weak, base);
    InBits(n);
    var low, w, c, b := n % 2 + 2 * (n / 2 % 2) + 4 * (n / 4 % 2) + 8 * (n / 8 % 2), n / 16 % 2, n / 32 % 32, n / 1024;
    SameDigits(RightBits(rights), Bit(weak), Code(t), base, low, w, c, b);
  }
}
