/** Shared vocabulary: optional values, results carrying the Java exception
    that ends an operation, bytes and bit strings. */
module Base {

  /** A Java reference that may be null. */
  datatype Option<+T> = None | Some(value: T)

  /** The unchecked Java exceptions the core can raise. */
  datatype JavaException =
    | NoSuchElement           // java.util.NoSuchElementException
    | UnsupportedOperation    // java.lang.UnsupportedOperationException
    | IndexOutOfBounds        // array or string index out of range
    | NullPointer             // java.lang.NullPointerException

  /** Either a value or the exception that escaped. */
  datatype Result<+T> = Ok(value: T) | Thrown(error: JavaException)

  /** A Java byte, as its eight bits. */
  type Byte = bv8

  /** A bit string: `true` is the character '1' of a code, `false` is '0'. */
  type Bits = seq<bool>

  /** Concatenation seen from the front of its first part. */
  lemma ConsConcat<T>(a: seq<T>, b: seq<T>)
    ensures a == [] ==> a + b == b
    ensures a != [] ==> (a + b)[0] == a[0] && (a + b)[1..] == a[1..] + b
  {
  }

  /** A non-empty sequence is its front followed by its last element. */
  lemma ButLast<T>(s: seq<T>)
    requires s != []
    ensures s == s[..|s| - 1] + [s[|s| - 1]]
  {
  }

  /** `p` is a (not necessarily proper) prefix of `s`. */
  predicate IsPrefix<T(==)>(p: seq<T>, s: seq<T>) {
    |p| <= |s| && s[..|p|] == p
  }

  /** `n` copies of the bit 0. */
  function Zeros(n: nat): (z: Bits)
    ensures |z| == n
    ensures forall i | 0 <= i < n :: !z[i]
  {
    if n == 0 then [] else Zeros(n - 1) + [false]
  }

  /** The characters of a code as Java's `String code` holds them. */
  function CodeString(bits: Bits): (s: string)
    ensures |s| == |bits|
    ensures forall i | 0 <= i < |bits| :: s[i] == (if bits[i] then '1' else '0')
  {
    if bits == [] then "" else CodeString(bits[..|bits| - 1]) + [if bits[|bits| - 1] then '1' else '0']
  }

  /** Reading a code string back is one-to-one: equal strings come from equal bit strings. */
  lemma CodeStringInjective(a: Bits, b: Bits)
    requires CodeString(a) == CodeString(b)
    ensures a == b
  {
    assert |a| == |b|;
    forall i | 0 <= i < |a|
      ensures a[i] == b[i]
    {
      assert CodeString(a)[i] == CodeString(b)[i];
    }
  }

  /** The code string of a prefix is the prefix of the code string. */
  lemma CodeStringPrefix(bits: Bits, k: nat)
    requires k <= |bits|
    ensures CodeString(bits[..k]) == CodeString(bits)[..k]
  {
  }

  /** Appending one bit appends one character. */
  lemma CodeStringSnoc(bits: Bits, b: bool)
    ensures CodeString(bits + [b]) == CodeString(bits) + [if b then '1' else '0']
  {
    assert (bits + [b])[..|bits|] == bits;
  }
}
