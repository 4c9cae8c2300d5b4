/** Fixed-width integers and the 16-bit circular arithmetic that RTP sequence numbers use. */
module Wire {
  type U8 = x: int | 0 <= x < 0x100
  type U16 = x: int | 0 <= x < 0x1_0000
  type U32 = x: int | 0 <= x < 0x1_0000_0000

  /** The two video codecs a session can negotiate. */
  datatype Codec = Hevc | Avc

  datatype Option<+T> = None | Some(value: T)

  /** `uint16_t(a - b)`: how far `a` lies ahead of `b` on the 16-bit circle. */
  function Sub16(a: int, b: int): U16 {
    (a - b) % 0x1_0000
  }

  /** `uint16_t(a + b)`. */
  function Add16(a: int, b: int): U16 {
    (a + b) % 0x1_0000
  }

  /** No element of `s` occurs twice. */
  ghost predicate Distinct<T>(s: seq<T>) {
    forall i, j :: 0 <= i < j < |s| ==> s[i] != s[j]
  }

  /** `erase(remove(...))`: drops every occurrence of `x`. */
  function Remove<T(==,!new)>(s: seq<T>, x: T): (r: seq<T>)
    ensures forall y :: y in r <==> y in s && y != x
  {
    if s == [] then []
    else if s[0] == x then Remove(s[1..], x)
    else [s[0]] + Remove(s[1..], x)
  }

  lemma RemoveDistinct<T(!new)>(s: seq<T>, x: T)
    requires Distinct(s)
    ensures Distinct(Remove(s, x))
  {
    if s != [] {
      RemoveDistinct(s[1..], x);
      assert s[0] !in s[1..];
    }
  }

  lemma RemoveAbsent<T(!new)>(s: seq<T>, x: T)
    requires x !in s
    ensures Remove(s, x) == s
  {
  }
}
