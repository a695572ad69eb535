/**
 * The length scanners `frog_strlen_utf8`, `frog_strlen_utf16` and
 * `frog_strlen_utf32`: count the units before the first zero unit. The
 * C code reads until it finds a zero, so callers must supply one; here
 * that is a precondition.
 */
module Strlen {

  /** The number of units before the first `nul` of `str`. */
  method Strlen<T(==)>(str: seq<T>, nul: T) returns (length: nat)
    requires nul in str
    ensures length < |str| && str[length] == nul
    ensures forall k :: 0 <= k < length ==> str[k] != nul
  {
    length := 0;
    while str[length] != nul
      invariant length < |str|
      invariant nul in str[length..]
      invariant forall k :: 0 <= k < length ==> str[k] != nul
      decreases |str| - length
    {
      assert str[length..] == [str[length]] + str[length + 1..];
      length := length + 1;
    }
  }

  /** `frog_strlen_utf8`: the index of the first zero byte. */
  method StrlenUtf8(str: seq<bv8>) returns (length: nat)
    requires 0 in str
    ensures length < |str| && str[length] == 0
    ensures forall k :: 0 <= k < length ==> str[k] != 0
  {
    length := Strlen(str, 0);
  }

  /** `frog_strlen_utf16`: the index of the first zero unit. */
  method StrlenUtf16(str: seq<bv16>) returns (length: nat)
    requires 0 in str
    ensures length < |str| && str[length] == 0
    ensures forall k :: 0 <= k < length ==> str[k] != 0
  {
    length := Strlen(str, 0);
  }

  /** `frog_strlen_utf32`: the index of the first zero unit. */
  method StrlenUtf32(str: seq<bv32>) returns (length: nat)
    requires 0 in str
    ensures length < |str| && str[length] == 0
    ensures forall k :: 0 <= k < length ==> str[k] != 0
  {
    length := Strlen(str, 0);
  }
}
