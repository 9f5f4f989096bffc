# Clique extradata formatter, modelled in Dafny

The script `projects/ethereum-poa-native/generate-extradata.js` prints the
`extraData` value of a genesis file for a Clique proof-of-authority network.
Following the "Specification" section of EIP-225, that value is 32 zero
"vanity" bytes, the signer addresses, then 65 zero "seal" bytes, written as
one hexadecimal string that starts with `0x`.

The script runs in three steps:

1. It puts the `MINER_ADDRESS` environment variable into a one-element list.
2. It folds that list with `reduce`, starting from `""`. Each address loses one
   leading `0x` if it has one, and is appended to the accumulator.
3. It frames the result as `"0x"`, then 64 `'0'` characters, then the signers,
   then 130 `'0'` characters. 64 is 32 bytes times 2 characters per byte, and
   130 is 65 bytes times 2.

The model is pure: functions and lemmas in `extradata.dfy` (module
`GenerateExtradata`), with `Option` and `Result` in `wrappers.dfy`.

- The environment variable is the parameter of `Run`, typed `Option<string>`.
  `None` means the variable is unset. The script then throws a `TypeError`,
  because it calls `startsWith` on `undefined`. The model returns
  `Failure(MinerAddressUndefined)` for that case.
- `ReduceSigners` is `reduce` as the script uses it: a left fold with an
  accumulator. `NormalisedConcat` is an independent, structural definition of
  the same string, and `ReduceSignersIsConcat` connects the two.
- `DecodeSigners` is the inverse of the framing. It is the partner used to
  state the round trip.

The code performs no validation of the address. An empty string, a string of
the wrong length or a string of non-hex characters is embedded exactly as
given, after stripping at most one `0x`. An unset variable is the only error.
Neither the script nor the model rejects an empty or malformed address:
`RunEmptyAddress` shows the empty address giving the two zero regions with
nothing between them, and `RunLengthOfAddress` holds for any 40 characters,
hex or not.

## Model

| member | source | states |
|---|---|---|
| GenerateExtradata.Repeat | projects/ethereum-poa-native/generate-extradata.js:11 | `'0'.repeat(n)`: the result has length n and every character is `'0'` |
| GenerateExtradata.RepeatUnique | projects/ethereum-poa-native/generate-extradata.js:11 | a zero region is determined by its length: any n-character string of `'0'` equals `Repeat('0', n)` |
| GenerateExtradata.StartsWith | projects/ethereum-poa-native/generate-extradata.js:10 | `cur.startsWith("0x")`: true exactly when the prefix is no longer than the string and matches its first characters one by one |
| GenerateExtradata.StripHexPrefix | projects/ethereum-poa-native/generate-extradata.js:10 | if the address starts with `0x`, then `0x` followed by the result gives back the address, and the result is 2 characters shorter; otherwise the address is returned unchanged |
| GenerateExtradata.StripRemovesOnePrefix | projects/ethereum-poa-native/generate-extradata.js:10 | for every string a, stripping `"0x" + a` gives exactly a, even when a itself starts with `0x` |
| GenerateExtradata.StripDoublePrefix | projects/ethereum-poa-native/generate-extradata.js:10 | `"0x0xab"` becomes `"0xab"`: only one prefix is removed |
| GenerateExtradata.StripNotIdempotent | projects/ethereum-poa-native/generate-extradata.js:10 | stripping twice differs from stripping once on `"0x0xab"` |
| GenerateExtradata.HexStringHasNoPrefix | projects/ethereum-poa-native/generate-extradata.js:10 | a string of hex digits never starts with `0x`, because `'x'` is not a hex digit |
| GenerateExtradata.ReduceSigners | projects/ethereum-poa-native/generate-extradata.js:10 | `address.reduce((acc, cur) => …, acc)`: the fold only appends, so its result starts with the accumulator; `ReduceSignersIsConcat` states what it appends |
| GenerateExtradata.ReduceSignersIsConcat | projects/ethereum-poa-native/generate-extradata.js:10 | the `reduce` left fold from any accumulator equals the accumulator followed by the normalised addresses concatenated in list order |
| GenerateExtradata.ConcatSigners | projects/ethereum-poa-native/generate-extradata.js:9-10 | the fold started from `""` equals the structural concatenation of the normalised addresses |
| GenerateExtradata.NormalisedConcatAppend | projects/ethereum-poa-native/generate-extradata.js:10 | concatenating the signers of a list split in two gives the signers of the two parts, one after the other |
| GenerateExtradata.ConcatSignersSnoc | projects/ethereum-poa-native/generate-extradata.js:10 | adding an address to the end of the list appends its normalised form to the end of the signer string |
| GenerateExtradata.ConcatSignersSingleton | projects/ethereum-poa-native/generate-extradata.js:9-10 | for the one-element list the script builds, the signer string is the stripped address |
| GenerateExtradata.EncodeExtradata | projects/ethereum-poa-native/generate-extradata.js:5-11 | the result has length 196 + the signer length, starts with `0x`, has `'0'` at positions 2 to 65, holds the signers verbatim from position 66, and has `'0'` in the remaining 130 positions |
| GenerateExtradata.DecodeSigners | projects/ethereum-poa-native/generate-extradata.js:11 | inverse of the framing: a decoded signer string is 196 characters shorter than the extradata |
| GenerateExtradata.DecodeEncode | projects/ethereum-poa-native/generate-extradata.js:11 | removing the first 66 and the last 130 characters of an encoded value gives back exactly the signer string |
| GenerateExtradata.DecodeSignersIff | projects/ethereum-poa-native/generate-extradata.js:11 | a value decodes to s if and only if it is the encoding of s |
| GenerateExtradata.EncodeInjective | projects/ethereum-poa-native/generate-extradata.js:11 | different signer strings give different extradata values |
| GenerateExtradata.Extradata | projects/ethereum-poa-native/generate-extradata.js:9-11 | the extradata of an address list decodes to the normalised addresses concatenated in order |
| GenerateExtradata.Run | projects/ethereum-poa-native/generate-extradata.js:9-11 | the script fails exactly when the address is unset; any other address, including `""`, gives extradata that decodes to the stripped address |
| GenerateExtradata.RunIsFramedAddress | projects/ethereum-poa-native/generate-extradata.js:9-11 | the output for an address is the framing of the stripped address |
| GenerateExtradata.RunLength | projects/ethereum-poa-native/generate-extradata.js:5-11 | the output length is 196 plus the length of the stripped address |
| GenerateExtradata.RunLengthOfAddress | projects/ethereum-poa-native/generate-extradata.js:5-11 | an address of 40 characters once stripped (hex or not, with or without `0x`) gives 236 characters |
| GenerateExtradata.PrefixInsensitive | projects/ethereum-poa-native/generate-extradata.js:10-11 | `"0x" + a` and `a` give the same extradata if and only if a does not itself start with `0x` |
| GenerateExtradata.HexAddressPrefixInsensitive | projects/ethereum-poa-native/generate-extradata.js:9-11 | for every hex string A, the output for `"0x" + A` equals the output for A |
| GenerateExtradata.RunPrefixedExample | projects/ethereum-poa-native/generate-extradata.js:9-11 | `0x1234567890123456789012345678901234567890` gives `0x`, 64 zeros, the 40 digits without prefix, 130 zeros |
| GenerateExtradata.RunUnprefixedExample | projects/ethereum-poa-native/generate-extradata.js:9-11 | `abcdefabcdefabcdefabcdefabcdefabcdefabcd` is embedded unchanged between the zero regions |
| GenerateExtradata.RunEmptyAddress | projects/ethereum-poa-native/generate-extradata.js:9-11 | the empty address is accepted and gives `0x` followed by 194 zeros |

## Left out

- Reading `process.env.MINER_ADDRESS` (line 9) is environment input. It is the parameter of `Run`.
- The `TypeError` thrown for an unset variable (line 10) is modelled as a `Failure` value, not as an exception. Its message text is not modelled.
- Printing the result with `console.log` (line 12) is output. `Run` returns the string instead.
- Signer ordering, seal signatures and other EIP-225 rules are not modelled. The script only pads with zeros and does not implement them.
- JavaScript strings are sequences of UTF-16 code units, and Dafny's `char` is a Unicode scalar value. The model reads `startsWith`, `substring(2)` and `repeat` on Dafny characters. That is the same for the ASCII addresses the script is meant for.
