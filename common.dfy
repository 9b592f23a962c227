/** Types shared by every part of the model: C integer widths and an optional value. */
module Common {

  datatype Option<T> = None | Some(value: T)

  /** `uint8_t` / `uchar` */
  type Byte = x: int | 0 <= x < 0x100

  /** `uint16_t` */
  type U16 = x: int | 0 <= x < 0x1_0000

  /** `uint32_t` / `unsigned int` */
  type U32 = x: int | 0 <= x < 0x1_0000_0000

  /** `int` (32-bit two's complement) */
  type I32 = x: int | -0x8000_0000 <= x < 0x8000_0000

  const INT_MAX: int := 0x7fff_ffff

  function Max(a: int, b: int): int { if a < b then b else a }

  /** Two sequences with the same elements are equal.  Stated for any element
    * type, so that the solver never compares elements structurally. */
  lemma SameElements<T>(a: seq<T>, b: seq<T>)
    requires |a| == |b| && forall k :: 0 <= k < |a| ==> a[k] == b[k]
    ensures a == b
  {
  }

  /** Appending nothing leaves a sequence unchanged. */
  lemma AppendEmpty<T>(s: seq<T>)
    ensures s + [] == s
  {
  }

  /** The prefix as long as the whole sequence is the sequence. */
  lemma FullPrefix<T>(s: seq<T>, k: nat)
    requires k == |s|
    ensures s[..k] == s
  {
  }

  /** Dropping the last element of a prefix gives the shorter prefix.  Stated
    * for any element type, so that the solver never compares elements. */
  lemma InitOfPrefix<T>(s: seq<T>, k: nat)
    requires k < |s|
    ensures s[..k + 1][..k] == s[..k]
  {
  }
}
