/**
  The part id of a file name: the 13-bit hash both the server and the client compute.
 */
module PartId {
  import opened Bits
  import opened InodeIds

  const FILENAME_LENGTH: nat := 256

  /** A byte of a C string as the signed `char` the sources add. */
  function SignedChar(c: char): int {
    var v := c as int % 256;
    if v >= 128 then v - 256 else v
  }

  /** hashValue * 31 + c on 16 bits */
  function HashStep(h: nat, c: char): nat {
    (h * 31 + SignedChar(c)) % 0x1_0000
  }

  function HashPrefix(name: string, n: nat): nat
    requires n <= |name|
  {
    if n == 0 then 0 else HashStep(HashPrefix(name, n - 1), name[n - 1])
  }

  /** strnlen of a string without zero bytes. */
  function BoundedLength(name: string): (n: nat)
    ensures n <= |name|
  {
    if |name| < FILENAME_LENGTH then |name| else FILENAME_LENGTH
  }

  lemma {:induction false} And13(x: nat)
    ensures And(x, PART_ID_MASK) == x % PARTS
  {
    Pow2Values();
    AndSplit(x, PART_ID_MASK, 13, x / PARTS, x % PARTS, 0, PART_ID_MASK);
    AndAllOnes(x % PARTS, 13);
  }

  function HashPartId(name: string): (part: nat)
    ensures part < PARTS
  {
    And13(HashPrefix(name, BoundedLength(name)));
    And(HashPrefix(name, BoundedLength(name)), PART_ID_MASK)
  }

  /** The accumulator loop. */
  method ComputeHashPartId(name: string) returns (part: nat)
    ensures part == HashPartId(name)
  {
    var hashValue := 0;
    var i := 0;
    while i < BoundedLength(name)
      invariant 0 <= i <= BoundedLength(name) && hashValue == HashPrefix(name, i)
    {
      hashValue := HashStep(hashValue, name[i]);
      i := i + 1;
    }
    return And(hashValue, PART_ID_MASK);
  }

  // What the hash is: the name read as a number in base 31

  function Power31(n: nat): nat { if n == 0 then 1 else 31 * Power31(n - 1) }

  /** The first character counts most. */
  function Base31(name: string): int {
    if name == [] then 0 else SignedChar(name[0]) * Power31(|name| - 1) + Base31(name[1..])
  }

  lemma {:induction false} Base31Append(name: string, c: char)
    ensures Base31(name + [c]) == Base31(name) * 31 + SignedChar(c)
  {
    if name == [] {
      assert name + [c] == [c] && [c][1..] == [];
    } else {
      Base31Append(name[1..], c);
      assert (name + [c])[1..] == name[1..] + [c];
      assert SignedChar(name[0]) * Power31(|name|) == SignedChar(name[0]) * Power31(|name| - 1) * 31;
    }
  }

  /** The two are the same number but for multiples of 2^16. */
  lemma {:induction false} PrefixIsBase31(name: string, n: nat) returns (q: int)
    requires n <= |name|
    ensures Base31(name[..n]) == HashPrefix(name, n) + q * 0x1_0000
  {
    q := 0;
    if n > 0 {
      var r := PrefixIsBase31(name, n - 1);
      Base31Append(name[..n - 1], name[n - 1]);
      assert name[..n - 1] + [name[n - 1]] == name[..n];
      var x := HashPrefix(name, n - 1) * 31 + SignedChar(name[n - 1]);
      q := r * 31 + x / 0x1_0000;
    }
  }

  /** The part id is the first 256 characters in base 31, modulo 2^13. */
  lemma {:induction false} PartIdIsBase31(name: string)
    ensures HashPartId(name) == Base31(if |name| < FILENAME_LENGTH then name else name[..FILENAME_LENGTH]) % PARTS
  {
    var n := BoundedLength(name);
    var q := PrefixIsBase31(name, n);
    And13(HashPrefix(name, n));
    assert |name| < FILENAME_LENGTH ==> name[..n] == name;
    var h := HashPrefix(name, n);
    assert (h + q * 0x1_0000) % PARTS == h % PARTS by { assert q * 0x1_0000 == (q * 8) * PARTS; ModShift(h, q * 8); }
  }

  lemma {:induction false} ModShift(h: int, k: int)
    ensures (h + k * PARTS) % PARTS == h % PARTS
  {}
}
