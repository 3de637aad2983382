/**
 * The signature scanner of zipchecker.c (`find_signature`): a naive
 * left-to-right search for a byte pattern in a buffer.
 */
module Signature {
  import opened Bytes
  import opened Wrappers

  /** True when `needle` occurs in `haystack` starting at index `i`. */
  predicate MatchesAt(haystack: seq<uint8>, i: nat, needle: seq<uint8>) {
    i + |needle| <= |haystack| && haystack[i..i + |needle|] == needle
  }

  /** The lowest index at or after `from` where `needle` occurs, if any. */
  function FirstMatchFrom(haystack: seq<uint8>, needle: seq<uint8>, from: nat): (r: Option<nat>)
    decreases |haystack| + 1 - from
    ensures r.Some? ==> from <= r.value && r.value + |needle| <= |haystack|
  {
    if from + |needle| > |haystack| then None
    else if MatchesAt(haystack, from, needle) then Some(from)
    else FirstMatchFrom(haystack, needle, from + 1)
  }

  /**
   * What `FirstMatchFrom` finds is a match at or after `from` with no match
   * between `from` and it, and it finds nothing exactly when there is no
   * match from `from` on.
   */
  lemma {:induction false} FirstMatchFromSpec(haystack: seq<uint8>, needle: seq<uint8>, from: nat)
    decreases |haystack| + 1 - from
    ensures FirstMatchFrom(haystack, needle, from).Some? ==>
              var k := FirstMatchFrom(haystack, needle, from).value;
              from <= k && MatchesAt(haystack, k, needle)
              && forall j: nat :: from <= j < k ==> !MatchesAt(haystack, j, needle)
    ensures FirstMatchFrom(haystack, needle, from).None? <==> forall j: nat :: from <= j ==> !MatchesAt(haystack, j, needle)
  {
    if from + |needle| > |haystack| {
    } else if MatchesAt(haystack, from, needle) {
    } else {
      FirstMatchFromSpec(haystack, needle, from + 1);
      assert forall j: nat :: from <= j < from + 1 ==> !MatchesAt(haystack, j, needle);
    }
  }

  /** With no match at or after `from`, the search from `from` finds nothing. */
  lemma FirstMatchFromNone(haystack: seq<uint8>, needle: seq<uint8>, from: nat)
    requires forall j: nat :: from <= j ==> !MatchesAt(haystack, j, needle)
    ensures FirstMatchFrom(haystack, needle, from) == None
  {
    FirstMatchFromSpec(haystack, needle, from);
  }

  /** The lowest index where `needle` occurs in `haystack`, if any. */
  function FirstMatch(haystack: seq<uint8>, needle: seq<uint8>): (r: Option<nat>)
    ensures r.Some? ==> r.value + |needle| <= |haystack|
  {
    FirstMatchFrom(haystack, needle, 0)
  }

  /** A match at or after `from` with no match between `from` and it is the first match from `from`. */
  lemma FirstMatchFromIsLowest(haystack: seq<uint8>, needle: seq<uint8>, from: nat, k: nat)
    requires from <= k && MatchesAt(haystack, k, needle)
    requires forall j: nat :: from <= j < k ==> !MatchesAt(haystack, j, needle)
    ensures FirstMatchFrom(haystack, needle, from) == Some(k)
  {
    FirstMatchFromSpec(haystack, needle, from);
    var r := FirstMatchFrom(haystack, needle, from);
    assert r.Some?;
  }

  /**
   * What `FirstMatch` finds is a match with no match before it, and it finds
   * nothing exactly when there is no match.
   */
  lemma FirstMatchSpec(haystack: seq<uint8>, needle: seq<uint8>)
    ensures FirstMatch(haystack, needle).Some? ==>
              var k := FirstMatch(haystack, needle).value;
              MatchesAt(haystack, k, needle) && forall j: nat :: j < k ==> !MatchesAt(haystack, j, needle)
    ensures FirstMatch(haystack, needle).None? <==> forall j: nat :: !MatchesAt(haystack, j, needle)
  {
    FirstMatchFromSpec(haystack, needle, 0);
  }

  /** A match with no match before it is the first match. */
  lemma FirstMatchIsLowest(haystack: seq<uint8>, needle: seq<uint8>, k: nat)
    requires MatchesAt(haystack, k, needle)
    requires forall j: nat :: j < k ==> !MatchesAt(haystack, j, needle)
    ensures FirstMatch(haystack, needle) == Some(k)
  {
    FirstMatchFromIsLowest(haystack, needle, 0, k);
  }

  /** A match of `needle` in `haystack[s..]` at `j` is a match in `haystack` at `s + j`, and back. */
  lemma MatchesAtSuffix(haystack: seq<uint8>, s: nat, needle: seq<uint8>, j: nat)
    requires s <= |haystack|
    ensures MatchesAt(haystack[s..], j, needle) <==> MatchesAt(haystack, s + j, needle)
  {
    if j + |needle| <= |haystack| - s {
      assert haystack[s..][j..j + |needle|] == haystack[s + j..s + j + |needle|];
    }
  }

  /** An index found in the buffer from `start` on, as an index in the whole buffer. */
  function OffsetBy(r: Option<nat>, start: nat): Option<nat> {
    match r
    case None => None
    case Some(i) => Some(start + i)
  }

  /**
   * Searching `haystack[s..]` from `t` on finds what searching `haystack`
   * from `s + t` on finds, counted from `s`.
   */
  lemma {:induction false} FirstMatchFromInSuffix(haystack: seq<uint8>, needle: seq<uint8>, s: nat, t: nat)
    requires s <= |haystack|
    decreases |haystack| + 1 - (s + t)
    ensures FirstMatchFrom(haystack, needle, s + t) == OffsetBy(FirstMatchFrom(haystack[s..], needle, t), s)
  {
    MatchesAtSuffix(haystack, s, needle, t);
    assert |haystack[s..]| == |haystack| - s;
    if s + t + |needle| > |haystack| {
    } else if MatchesAt(haystack, s + t, needle) {
    } else {
      FirstMatchFromInSuffix(haystack, needle, s, t + 1);
    }
  }

  /**
   * Searching the buffer from `s` on, as `find_signature(data + s, ...)`
   * does, finds the first match at or after `s`, counted from `s`.
   */
  lemma FirstMatchInSuffix(haystack: seq<uint8>, needle: seq<uint8>, s: nat)
    requires s <= |haystack|
    ensures FirstMatchFrom(haystack, needle, s) == OffsetBy(FirstMatch(haystack[s..], needle), s)
  {
    FirstMatchFromInSuffix(haystack, needle, s, 0);
  }

  /**
   * `find_signature`: the lowest offset at which `signature` occurs in `data`,
   * or `None` (the C function's -1). The explicit length guard replaces the
   * unsigned subtraction `data_len - signature_len`, which wraps around when
   * the signature is longer than the buffer.
   */
  method FindSignature(data: seq<uint8>, signature: seq<uint8>) returns (r: Option<nat>)
    ensures r.Some? ==> MatchesAt(data, r.value, signature)
    ensures r.Some? ==> forall j: nat :: j < r.value ==> !MatchesAt(data, j, signature)
    ensures r.None? <==> forall j: nat :: !MatchesAt(data, j, signature)
    ensures |signature| > |data| ==> r == None
    ensures r == FirstMatch(data, signature)
  {
    if |signature| > |data| {
      return None;
    }
    for i := 0 to |data| - |signature| + 1
      invariant forall j: nat :: j < i ==> !MatchesAt(data, j, signature)
    {
      if data[i..i + |signature|] == signature {
        assert MatchesAt(data, i, signature);
        FirstMatchIsLowest(data, signature, i);
        return Some(i);
      }
    }
    assert forall j: nat :: !MatchesAt(data, j, signature);
    FirstMatchSpec(data, signature);
    return None;
  }

  /** C's `size_t`: 64-bit unsigned arithmetic wraps modulo 2^64. */
  const SizeModulus: nat := 0x1_0000_0000_0000_0000

  /**
   * The last index the loop of `find_signature` tries, as written:
   * `data_len - signature_len` computed in `size_t`.
   */
  function LastCandidateAsWritten(dataLen: nat, signatureLen: nat): (last: nat)
    requires dataLen < SizeModulus && signatureLen < SizeModulus
    ensures last < SizeModulus
    ensures signatureLen <= dataLen ==> last + signatureLen == dataLen
  {
    (dataLen - signatureLen) % SizeModulus
  }

  /**
   * On a buffer shorter than the signature the bound wraps around to nearly
   * 2^64, so the loop tries index 0, whose comparison reads
   * `signatureLen` bytes from a buffer of `dataLen` bytes. `main` reaches
   * this with a file of fewer than 4 bytes.
   */
  lemma SearchBoundWrapsOnShortBuffer(dataLen: nat, signatureLen: nat)
    requires dataLen < signatureLen < SizeModulus
    ensures LastCandidateAsWritten(dataLen, signatureLen) == SizeModulus - (signatureLen - dataLen)
    ensures LastCandidateAsWritten(dataLen, signatureLen) >= dataLen
  {
  }
}
