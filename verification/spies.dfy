/**
 * The identity of a peer ("spy"): the host a beacon came from and the
 * subscriber port it announced. Two spies are the same peer exactly when
 * host and port agree; the `tcp://host:port` address is derived from those
 * two and identifies the spy again.
 */
module Spies {
  import opened Wrappers
  import opened Int32Text

  datatype Spy = Spy(name: string, port: int32)

  const AddressScheme: string := "tcp://"

  /** The endpoint the publisher connects to and the node events carry. */
  function Address(s: Spy): string {
    AddressScheme + s.name + ":" + Format(s.port)
  }

  /** The printed form of a spy is its address, and that address names the spy. */
  function ToString(s: Spy): (r: string)
    ensures ParseAddress(r) == Some(s)
  {
    AddressRoundTrip(s);
    Address(s)
  }

  /** The typed `Equals(Spy)`: name and port agree. */
  predicate SpyEquals(a: Spy, b: Spy) {
    a.name == b.name && a.port == b.port
  }

  /** What `Equals(object)` may be handed: nothing, a spy, or an object of another type. */
  datatype Obj = Null | SpyObject(spy: Spy) | OtherObject

  /** `Equals(object)`: false for null and for other types, else the typed comparison. */
  predicate EqualsObject(self: Spy, obj: Obj) {
    match obj
    case Null => false
    case OtherObject => false
    case SpyObject(other) => SpyEquals(self, other)
  }

  /**
   * `Spy.Equals(object)` coincides with datatype equality, so a `map` keyed
   * by `Spy` holds each peer at most once, as the Dictionary keyed by it does.
   */
  lemma SpyEqualsIsKeyEquality(a: Spy, b: Spy)
    ensures EqualsObject(a, SpyObject(b)) <==> a == b
    ensures !EqualsObject(a, Null) && !EqualsObject(a, OtherObject)
  {
  }

  // ---- GetHashCode, in unchecked 32-bit arithmetic ----

  const HashMultiplier: int := 397

  /** Two's-complement truncation of an integer to 32 bits. */
  function Wrap32(x: int): (r: int32)
    ensures (x - r) % 0x1_0000_0000 == 0
  {
    (x + 0x8000_0000) % 0x1_0000_0000 - 0x8000_0000
  }

  /** On a 32-bit unsigned pattern the truncation is the two's-complement reading. */
  lemma Wrap32Unsigned(x: int)
    requires 0 <= x < 0x1_0000_0000
    ensures Wrap32(x) == if x <= MaxInt32 then x else x - 0x1_0000_0000
  {
    if x <= MaxInt32 {
      assert (x + 0x8000_0000) % 0x1_0000_0000 == x + 0x8000_0000;
    } else {
      assert (x + 0x8000_0000) % 0x1_0000_0000 == x + 0x8000_0000 - 0x1_0000_0000;
    }
  }

  function Pow2(n: nat): (r: nat)
    ensures r >= 1
  {
    if n == 0 then 1 else 2 * Pow2(n - 1)
  }

  /** Bitwise exclusive or of the low `n` bits of `a` and `b`. */
  function XorBits(a: nat, b: nat, n: nat): (r: nat)
    ensures r < Pow2(n)
  {
    if n == 0 then 0
    else (if a % 2 != b % 2 then 1 else 0) + 2 * XorBits(a / 2, b / 2, n - 1)
  }

  /** Exclusive or with a fixed mask is injective on `n`-bit values. */
  lemma {:induction false} XorBitsCancel(h: nat, p: nat, q: nat, n: nat)
    requires p < Pow2(n) && q < Pow2(n)
    requires XorBits(h, p, n) == XorBits(h, q, n)
    ensures p == q
  {
    if n > 0 {
      XorBitsCancel(h / 2, p / 2, q / 2, n - 1);
    }
  }

  /** The 32-bit pattern of an `int`, read as unsigned. */
  function Unsigned32(x: int32): nat {
    if x < 0 then x + 0x1_0000_0000 else x
  }

  lemma Pow2Of32()
    ensures Pow2(32) == 0x1_0000_0000
  {
    assert Pow2(8) == 0x100;
    assert Pow2(16) == 0x1_0000;
    assert Pow2(24) == 0x100_0000;
  }

  /** The `^` operator on two `int` values. */
  function Xor32(a: int32, b: int32): int32 {
    Wrap32(XorBits(Unsigned32(a), Unsigned32(b), 32))
  }

  /**
   * `GetHashCode`: `(Name.GetHashCode() * 397) ^ Port`, unchecked. The string
   * hash is the runtime's (randomised per process), so it is a parameter.
   */
  function HashCode(s: Spy, nameHash: string -> int32): int32 {
    Xor32(Wrap32(nameHash(s.name) * HashMultiplier), s.port)
  }

  /** Equal spies have equal hash codes, whatever the string hash is. */
  lemma EqualSpiesHashEqual(a: Spy, b: Spy, nameHash: string -> int32)
    requires SpyEquals(a, b)
    ensures HashCode(a, nameHash) == HashCode(b, nameHash)
  {
  }

  /** Spies on one host that differ in port never share a hash code. */
  lemma HashSeparatesPorts(a: Spy, b: Spy, nameHash: string -> int32)
    requires a.name == b.name && a.port != b.port
    ensures HashCode(a, nameHash) != HashCode(b, nameHash)
  {
    var h := Unsigned32(Wrap32(nameHash(a.name) * HashMultiplier));
    var xa := XorBits(h, Unsigned32(a.port), 32);
    var xb := XorBits(h, Unsigned32(b.port), 32);
    Pow2Of32();
    Wrap32Unsigned(xa);
    Wrap32Unsigned(xb);
    if xa == xb {
      XorBitsCancel(h, Unsigned32(a.port), Unsigned32(b.port), 32);
    }
  }

  // ---- reading an address back ----

  /** Index of the last occurrence of `c` in `s`. */
  function LastIndexOf(s: string, c: char): (r: Option<nat>)
    ensures r.Some? ==> r.value < |s| && s[r.value] == c
    ensures r.Some? ==> forall j :: r.value < j < |s| ==> s[j] != c
    ensures r.None? ==> forall j :: 0 <= j < |s| ==> s[j] != c
    decreases |s|
  {
    if |s| == 0 then None
    else if s[|s| - 1] == c then Some(|s| - 1)
    else LastIndexOf(s[..|s| - 1], c)
  }

  /** Splits `host:port` at its last colon (a host may hold colons, a port never does). */
  function SplitAtLastColon(s: string): Option<(string, string)> {
    match LastIndexOf(s, ':')
    case None => None
    case Some(k) => Some((s[..k], s[k + 1..]))
  }

  lemma SplitJoin(x: string, y: string)
    requires ':' !in y
    ensures SplitAtLastColon(x + ":" + y) == Some((x, y))
  {
    var s := x + ":" + y;
    assert s[|x|] == ':';
    var k := LastIndexOf(s, ':').value;
    assert k == |x|;
    assert s[..k] == x;
    assert s[k + 1..] == y;
  }

  lemma FormatHasNoColon(n: int32)
    ensures ':' !in Format(n)
  {
  }

  /** Reads a `tcp://host:port` address back into the spy it names. */
  function ParseAddress(a: string): Option<Spy> {
    match SplitAtLastColon(a)
    case None => None
    case Some((hostPart, portPart)) =>
      if |hostPart| < |AddressScheme| || hostPart[..|AddressScheme|] != AddressScheme then None
      else match TryParse(portPart)
        case None => None
        case Some(p) => Some(Spy(hostPart[|AddressScheme|..], p))
  }

  /** An address names its spy: reading it back yields the spy's name and port. */
  lemma AddressRoundTrip(s: Spy)
    ensures ParseAddress(Address(s)) == Some(s)
  {
    FormatHasNoColon(s.port);
    assert Address(s) == (AddressScheme + s.name) + ":" + Format(s.port);
    SplitJoin(AddressScheme + s.name, Format(s.port));
    ParseFormatRoundTrip(s.port);
    assert (AddressScheme + s.name)[..|AddressScheme|] == AddressScheme;
    assert (AddressScheme + s.name)[|AddressScheme|..] == s.name;
  }

  /** Distinct spies have distinct addresses, even when a host name holds colons. */
  lemma AddressInjective(a: Spy, b: Spy)
    requires Address(a) == Address(b)
    ensures a == b
  {
    AddressRoundTrip(a);
    AddressRoundTrip(b);
  }
}
