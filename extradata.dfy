/**
 * The `extraData` genesis field of a Clique proof-of-authority network
 * (EIP-225, "Specification" section): 32 zero "vanity" bytes, the signer
 * addresses, then 65 zero "seal" bytes, all written as one hexadecimal
 * string with a leading "0x".
 *
 * The script reads one signer address from the environment, strips one
 * optional "0x" from it, folds the resulting singleton list into a signer
 * string and frames that string with the two zero regions.
 */
module GenerateExtradata {
  import opened Wrappers

  /** Zero bytes written before the signers (EXTRA_VANITY). */
  const ConcatZeroPaddingBytes: nat := 32
  /** Zero bytes written after the signers (EXTRA_SEAL). */
  const FurtherZeroPaddingBytes: nat := 65
  /** Hexadecimal characters per byte. */
  const Nibble: nat := 2

  const HexPrefix: string := "0x"

  /** Characters of the leading zero region: 64. */
  const VanityChars: nat := ConcatZeroPaddingBytes * Nibble
  /** Characters of the trailing zero region: 130. */
  const SealChars: nat := FurtherZeroPaddingBytes * Nibble
  /** Index of the first signer character: 66. */
  const SignersStart: nat := |HexPrefix| + VanityChars
  /** Characters the frame adds around the signers: 196. */
  const FrameChars: nat := SignersStart + SealChars

  /** The error the script raises: `startsWith` called on an undefined address. */
  datatype Error = MinerAddressUndefined

  // ---------------------------------------------------------------------
  // String helpers
  // ---------------------------------------------------------------------

  predicate AllChar(s: string, c: char) {
    forall i :: 0 <= i < |s| ==> s[i] == c
  }

  /** JavaScript's `s.startsWith(p)`: `p` matches the first `|p|` characters of `s`, one by one. */
  predicate StartsWith(s: string, p: string)
    ensures StartsWith(s, p) <==> |p| <= |s| && forall i :: 0 <= i < |p| ==> s[i] == p[i]
  {
    |p| <= |s| && s[..|p|] == p
  }

  /** JavaScript's `c.repeat(n)` for a one-character string `c`. */
  function Repeat(c: char, n: nat): (r: string)
    ensures |r| == n && AllChar(r, c)
  {
    if n == 0 then "" else Repeat(c, n - 1) + [c]
  }

  /** A string of `n` copies of `c` is the only one of its length made of `c` alone. */
  lemma RepeatUnique(c: char, n: nat, s: string)
    requires |s| == n && AllChar(s, c)
    ensures s == Repeat(c, n)
  {
    var r := Repeat(c, n);
    assert forall i :: 0 <= i < n ==> s[i] == r[i];
  }

  predicate IsHexDigit(c: char) {
    ('0' <= c <= '9') || ('a' <= c <= 'f') || ('A' <= c <= 'F')
  }

  predicate IsHexString(s: string) {
    forall i :: 0 <= i < |s| ==> IsHexDigit(s[i])
  }

  // ---------------------------------------------------------------------
  // Normalising one address
  // ---------------------------------------------------------------------

  /**
   * The body of the `reduce` lambda applied to one address: drop one
   * leading "0x" when there is one, otherwise keep the address as it is.
   */
  function StripHexPrefix(address: string): (stripped: string)
    ensures StartsWith(address, HexPrefix) ==> HexPrefix + stripped == address
    ensures !StartsWith(address, HexPrefix) ==> stripped == address
    ensures |stripped| == if StartsWith(address, HexPrefix) then |address| - 2 else |address|
  {
    if StartsWith(address, HexPrefix) then address[|HexPrefix|..] else address
  }

  /** Stripping removes one prefix only: "0x" + a loses exactly its first two characters, whatever a is. */
  lemma StripRemovesOnePrefix(a: string)
    ensures StripHexPrefix(HexPrefix + a) == a
  {
    assert StartsWith(HexPrefix + a, HexPrefix) by {
      assert (HexPrefix + a)[..2] == HexPrefix;
    }
  }

  /** The case "0x0xab": the second prefix survives. */
  lemma StripDoublePrefix()
    ensures StripHexPrefix("0x0xab") == "0xab"
  {
    StripRemovesOnePrefix("0xab");
  }

  /** Stripping is not idempotent: applying it twice can remove more than applying it once. */
  lemma StripNotIdempotent()
    ensures StripHexPrefix(StripHexPrefix("0x0xab")) != StripHexPrefix("0x0xab")
  {
    StripDoublePrefix();
    StripRemovesOnePrefix("ab");
  }

  /** A hexadecimal digit string never starts with "0x", since 'x' is not a hexadecimal digit. */
  lemma HexStringHasNoPrefix(a: string)
    requires IsHexString(a)
    ensures !StartsWith(a, HexPrefix)
  {
    if |a| >= 2 {
      assert IsHexDigit(a[1]);
      assert a[..2][1] == a[1];
    }
  }

  // ---------------------------------------------------------------------
  // Folding the address list
  // ---------------------------------------------------------------------

  /**
   * `xs.reduce((acc, cur) => acc + StripHexPrefix(cur), acc)`: a left fold
   * that appends each normalised address to the accumulator in list order.
   */
  function ReduceSigners(acc: string, xs: seq<string>): (signers: string)
    ensures StartsWith(signers, acc)
    decreases |xs|
  {
    if xs == [] then acc
    else
      var next := acc + StripHexPrefix(xs[0]);
      var r := ReduceSigners(next, xs[1..]);
      assert r[..|acc|] == next[..|acc|] == acc;
      r
  }

  /**
   * Reference definition of the signer string: the normalised addresses
   * one after the other, defined structurally rather than as a fold.
   */
  function NormalisedConcat(xs: seq<string>): string
  {
    if xs == [] then "" else StripHexPrefix(xs[0]) + NormalisedConcat(xs[1..])
  }

  /** The left fold from any accumulator appends the reference concatenation to it. */
  lemma {:induction false} ReduceSignersIsConcat(acc: string, xs: seq<string>)
    ensures ReduceSigners(acc, xs) == acc + NormalisedConcat(xs)
    decreases |xs|
  {
    if xs != [] {
      var head := StripHexPrefix(xs[0]);
      ReduceSignersIsConcat(acc + head, xs[1..]);
      assert (acc + head) + NormalisedConcat(xs[1..]) == acc + (head + NormalisedConcat(xs[1..]));
    }
  }

  /** The signer string of the script: the fold started from "". */
  function ConcatSigners(addresses: seq<string>): (signers: string)
    ensures signers == NormalisedConcat(addresses)
  {
    ReduceSignersIsConcat("", addresses);
    ReduceSigners("", addresses)
  }

  /** Concatenation distributes over list append. */
  lemma {:induction false} NormalisedConcatAppend(xs: seq<string>, ys: seq<string>)
    ensures NormalisedConcat(xs + ys) == NormalisedConcat(xs) + NormalisedConcat(ys)
    decreases |xs|
  {
    if xs == [] {
      assert xs + ys == ys;
    } else {
      assert (xs + ys)[1..] == xs[1..] + ys;
      NormalisedConcatAppend(xs[1..], ys);
    }
  }

  /** Each fold step appends the next normalised address at the end: the list order is kept. */
  lemma ConcatSignersSnoc(xs: seq<string>, x: string)
    ensures ConcatSigners(xs + [x]) == ConcatSigners(xs) + StripHexPrefix(x)
  {
    NormalisedConcatAppend(xs, [x]);
    assert NormalisedConcat([x]) == StripHexPrefix(x) + NormalisedConcat([]);
  }

  /** The list the script builds has one element, so the signer string is that address, stripped. */
  lemma ConcatSignersSingleton(address: string)
    ensures ConcatSigners([address]) == StripHexPrefix(address)
  {
    assert [address][1..] == [];
    assert NormalisedConcat([address]) == StripHexPrefix(address) + NormalisedConcat([]);
  }

  // ---------------------------------------------------------------------
  // Framing the signer string
  // ---------------------------------------------------------------------

  /**
   * "0x", 64 zero characters, the signer string verbatim, 130 zero
   * characters. No check is made on the signer string.
   */
  function EncodeExtradata(signers: string): (extradata: string)
    ensures |extradata| == FrameChars + |signers|
    ensures StartsWith(extradata, HexPrefix)
    ensures AllChar(extradata[|HexPrefix|..SignersStart], '0')
    ensures extradata[SignersStart..SignersStart + |signers|] == signers
    ensures AllChar(extradata[SignersStart + |signers|..], '0')
  {
    var vanity := Repeat('0', VanityChars);
    var seal := Repeat('0', SealChars);
    var e := HexPrefix + vanity + signers + seal;
    assert e[..2] == HexPrefix;
    assert e[2..SignersStart] == vanity;
    assert e[SignersStart..SignersStart + |signers|] == signers;
    assert e[SignersStart + |signers|..] == seal;
    e
  }

  /**
   * The inverse of `EncodeExtradata`: the signer string of a well-framed
   * extradata value (the first 66 and the last 130 characters removed), or
   * `None` when the value is not framed as the script frames it.
   */
  function DecodeSigners(extradata: string): (signers: Option<string>)
    ensures signers.Some? ==> |signers.value| + FrameChars == |extradata|
  {
    if |extradata| >= FrameChars
      && StartsWith(extradata, HexPrefix)
      && AllChar(extradata[|HexPrefix|..SignersStart], '0')
      && AllChar(extradata[|extradata| - SealChars..], '0')
    then Some(extradata[SignersStart..|extradata| - SealChars])
    else None
  }

  /** Dropping the frame from an encoded value gives back exactly the signer string. */
  lemma DecodeEncode(signers: string)
    ensures DecodeSigners(EncodeExtradata(signers)) == Some(signers)
  {
    var e := EncodeExtradata(signers);
    assert |e| - SealChars == SignersStart + |signers|;
  }

  /** A value decodes to `signers` exactly when it is the encoding of `signers`. */
  lemma DecodeSignersIff(extradata: string, signers: string)
    ensures DecodeSigners(extradata) == Some(signers) <==> extradata == EncodeExtradata(signers)
  {
    if DecodeSigners(extradata) == Some(signers) {
      var n := |extradata|;
      var end := n - SealChars;
      RepeatUnique('0', VanityChars, extradata[2..SignersStart]);
      RepeatUnique('0', SealChars, extradata[end..]);
      assert extradata == extradata[..2] + extradata[2..SignersStart] + extradata[SignersStart..end] + extradata[end..];
    } else {
      if extradata == EncodeExtradata(signers) {
        DecodeEncode(signers);
        assert false;
      }
    }
  }

  /** Different signer strings give different extradata values. */
  lemma EncodeInjective(s: string, t: string)
    requires EncodeExtradata(s) == EncodeExtradata(t)
    ensures s == t
  {
    DecodeEncode(s);
    DecodeEncode(t);
  }

  // ---------------------------------------------------------------------
  // The whole script
  // ---------------------------------------------------------------------

  /** The extradata built from a list of addresses: fold, then frame. */
  function Extradata(addresses: seq<string>): (extradata: string)
    ensures DecodeSigners(extradata) == Some(NormalisedConcat(addresses))
  {
    DecodeEncode(ConcatSigners(addresses));
    EncodeExtradata(ConcatSigners(addresses))
  }

  /**
   * The script with `process.env.MINER_ADDRESS` as a parameter: `None` when
   * the variable is not set, which makes the script throw; any string,
   * the empty one included, is embedded after prefix stripping.
   */
  function Run(minerAddress: Option<string>): (result: Result<string, Error>)
    ensures minerAddress.None? <==> result == Failure(MinerAddressUndefined)
    ensures minerAddress.Some? ==>
      result.Success? && DecodeSigners(result.value) == Some(StripHexPrefix(minerAddress.value))
  {
    match minerAddress
    case None => Failure(MinerAddressUndefined)
    case Some(address) =>
      ConcatSignersSingleton(address);
      Success(Extradata([address]))
  }

  /** The output of the script for a given address, as one framed string. */
  lemma RunIsFramedAddress(address: string)
    ensures Run(Some(address)) == Success(EncodeExtradata(StripHexPrefix(address)))
  {
    var r := Run(Some(address));
    DecodeSignersIff(r.value, StripHexPrefix(address));
  }

  /** Length of the output: 196 plus the length of the stripped address. */
  lemma RunLength(address: string)
    ensures Run(Some(address)).Success?
    ensures |Run(Some(address)).value| == 196 + |StripHexPrefix(address)|
  {
    RunIsFramedAddress(address);
  }

  /** Any address of 40 characters once stripped, hex or not, gives 236 output characters. */
  lemma RunLengthOfAddress(address: string)
    requires |StripHexPrefix(address)| == 40
    ensures |Run(Some(address)).value| == 236
  {
    RunLength(address);
  }

  /**
   * A leading "0x" on the address changes nothing exactly when what follows
   * it does not itself start with "0x".
   */
  lemma PrefixInsensitive(a: string)
    ensures Extradata([HexPrefix + a]) == Extradata([a]) <==> !StartsWith(a, HexPrefix)
  {
    ConcatSignersSingleton(HexPrefix + a);
    ConcatSignersSingleton(a);
    StripRemovesOnePrefix(a);
    if StartsWith(a, HexPrefix) {
      assert |Extradata([HexPrefix + a])| == FrameChars + |a|;
      assert |Extradata([a])| == FrameChars + |a| - 2;
    }
  }

  /** In particular "0x" + A and A give the same output for every hexadecimal A. */
  lemma HexAddressPrefixInsensitive(a: string)
    requires IsHexString(a)
    ensures Run(Some(HexPrefix + a)) == Run(Some(a))
  {
    HexStringHasNoPrefix(a);
    PrefixInsensitive(a);
  }

  /** Example: a prefixed address is embedded without its prefix. */
  lemma RunPrefixedExample()
    ensures Run(Some("0x1234567890123456789012345678901234567890"))
      == Success("0x" + Repeat('0', VanityChars) + "1234567890123456789012345678901234567890" + Repeat('0', SealChars))
  {
    var a := "1234567890123456789012345678901234567890";
    var p := "0x1234567890123456789012345678901234567890";
    assert p[0] == '0' && p[1] == 'x';
    assert p[..2] == HexPrefix;
    assert p[2..] == a;
    assert StripHexPrefix(p) == a;
    RunIsFramedAddress(p);
  }

  /** Example: an address without prefix is embedded unchanged. */
  lemma RunUnprefixedExample()
    ensures Run(Some("abcdefabcdefabcdefabcdefabcdefabcdefabcd"))
      == Success("0x" + Repeat('0', VanityChars) + "abcdefabcdefabcdefabcdefabcdefabcdefabcd" + Repeat('0', SealChars))
  {
    HexStringHasNoPrefix("abcdefabcdefabcdefabcdefabcdefabcdefabcd");
    RunIsFramedAddress("abcdefabcdefabcdefabcdefabcdefabcdefabcd");
  }

  /** No validation: the empty address gives the two zero regions alone. */
  lemma RunEmptyAddress()
    ensures Run(Some("")) == Success("0x" + Repeat('0', FrameChars - 2))
  {
    RunIsFramedAddress("");
    var e := Run(Some("")).value;
    RepeatUnique('0', FrameChars - 2, e[2..]);
    assert e == e[..2] + e[2..];
  }
}
