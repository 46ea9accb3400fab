/** 32-bit sequence-number arithmetic as the C++ code performs it on uint32_t and int. */
module Words {

  const TWO_32: int := 0x1_0000_0000
  const TWO_31: int := 0x8000_0000

  type byte = x: int | 0 <= x < 256

  type uint16 = x: int | 0 <= x < 0x1_0000

  /** htons and ntohs on a little-endian host. */
  function Htons(p: uint16): uint16 {
    p % 256 * 256 + p / 256
  }

  lemma HtonsTwice(p: uint16)
    ensures Htons(Htons(p)) == p
  {
    var low, high := p % 256, p / 256;
    assert (low * 256 + high) % 256 == high && (low * 256 + high) / 256 == low;
  }

  type uint32 = x: int | 0 <= x < TWO_32

  /** Conversion of any integer to uint32_t. */
  function Wrap(x: int): uint32 {
    x % TWO_32
  }

  lemma WrapAdd(a: int, b: int)
    ensures Wrap(Wrap(a) + b) == Wrap(a + b)
  {
  }

  lemma EqualWraps(a: int, d: int)
    ensures Wrap(a + d) == Wrap(a) <==> Wrap(d) == 0
  {
  }

  lemma OppositeWraps(d: int)
    ensures Wrap(-d) == 0 <==> Wrap(d) == 0
  {
  }

  /** The cast (int)u of flow.cc:92. */
  function AsInt32(u: uint32): int {
    if u < TWO_31 then u else u - TWO_32
  }

  /** One value for each direction: the arrays indexed by DEST of flow.h. */
  datatype Dest = Client | Server

  datatype PerDest<T> = PerDest(client: T, server: T) {
    function Get(dest: Dest): T {
      if dest == Client then client else server
    }

    function Set(dest: Dest, value: T): PerDest<T> {
      if dest == Client then this.(client := value) else this.(server := value)
    }
  }

  datatype Option<T> = None | Some(value: T)

  /** Texts one after the other. */
  function Concat<T>(parts: seq<seq<T>>): seq<T> {
    if parts == [] then [] else parts[0] + Concat(parts[1..])
  }

  /** Equality of two values as wholes; a proof by this name does not compare texts byte by byte. */
  ghost predicate Same<T>(x: T, y: T) {
    x == y
  }

  lemma Associates<T>(a: seq<T>, b: seq<T>, c: seq<T>)
    ensures (a + b) + c == a + (b + c)
    ensures Same((a + b) + c, a + (b + c))
  {
    assert (a + b) + c == a + (b + c);
  }

  lemma EmptyIsNeutral(x: string)
    ensures Same(x + "", x) && Same("" + x, x)
  {
    assert x + "" == x && "" + x == x;
  }

  lemma Halves(s: string, k: nat)
    requires k <= |s|
    ensures Same(s[..k] + s[k..], s)
  {
    assert s[..k] + s[k..] == s;
  }
}
