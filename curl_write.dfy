/**
 * WriteCallback: the libcurl write function that collects a response body
 * into the std::string its user pointer designates.
 */
module CurlWrite {
  /** size_t is 64 bits wide on the target (AArch64): arithmetic on it wraps modulo 2^64. */
  const SizeModulus: int := 0x1_0000_0000_0000_0000

  /** A value a size_t can hold. */
  predicate IsSize(n: int) {
    0 <= n < SizeModulus
  }

  /**
   * `size * nmemb` computed in size_t: a size_t value congruent to the true
   * product, equal to it whenever the product fits.
   */
  function SizeMul(a: nat, b: nat): (r: nat)
    requires IsSize(a) && IsSize(b)
    ensures IsSize(r)
    ensures (a * b - r) % SizeModulus == 0
    ensures a * b < SizeModulus ==> r == a * b
  {
    (a * b) % SizeModulus
  }

  /** The std::string that receives the body. */
  class ResponseBuffer {
    var data: string

    constructor (initial: string)
      ensures data == initial
    {
      data := initial;
    }
  }

  /**
   * Appends the first size * nmemb characters of the chunk to the buffer and
   * reports all of them as taken.  libcurl hands over a chunk of at least
   * that many readable characters.  Each char stands for one byte of the
   * response (a value below 256), as std::string stores it.
   */
  method WriteCallback(contents: seq<char>, size: nat, nmemb: nat, userp: ResponseBuffer) returns (written: nat)
    requires IsSize(size) && IsSize(nmemb) && SizeMul(size, nmemb) <= |contents|
    modifies userp
    ensures written == SizeMul(size, nmemb)
    ensures userp.data == old(userp.data) + contents[..written]
  {
    var n := SizeMul(size, nmemb);
    userp.data := userp.data + contents[..n];
    written := n;
  }

}
