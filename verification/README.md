# wolfCLU in Dafny

wolfCLU is a command-line front end to wolfSSL. Most of it passes options to library calls; this
project models the parts that carry logic of their own and proves what they keep over every input,
every run and every way the modelled calls around them can fail.

- **DH key writer** (`der.dfy`, `dh_der.dfy`, `dh_genkey.dfy`). The two-pass DER writer for
  Diffie-Hellman parameters and private keys, over an output array and a cursor, against the encoding
  as a function and an independent strict reader of ITU-T X.690.
- **Legacy file encryption** (`cbc.dfy`, `files.dfy`, `legacy_*.dfy`). Encryption and decryption in
  1024-byte chunks, CBC restarted from the same IV for each chunk, padding signalled by the first salt
  byte, and the whole round trip with a password and with an explicit key.
- **Salted streams** (`evp_format.dfy`, `evp_crypto.dfy`). The `Salted__` header, the choice of key
  derivation, the streaming loop, and Base64 around it.
- **Hex and key files** (`base16.dfy`, `hex_to_bin.dfy`, `key_file.dfy`). The four-slot hex decoder
  with its unwinding loop, and the reader that tells hex keys from raw ones.
- **OCSP responder** (`ocsp_*.dfy`). The index file parser that builds a linked list in place, the pass
  that hands its entries to the responder, and the accept loop with its many exits.
- **TLS loops** (`tls_server.dfy`, `tls_client.dfy`). Writing, echoing and connecting without blocking.

`bytes.dfy`, `arithmetic.dfy` and `env.dfy` hold what they share.

## How it is modelled

Code that changes state is a method on arrays and objects with a loop where the source has one. Its
contract ties the new state to a function or predicate, and lemmas relate those functions to each other
or to an independent definition.

The surroundings are adversarial. `Environment.Env` holds the set of live heap blocks and counts the
failures injected so far: any allocation and any call taken through it may fail, among them reading,
writing, closing and measuring files. Freeing requires the block
to be live, so a method whose contract says `env.live == old(env.live)` has released everything it took,
each block once, on every path. Statements about results are made for the runs in which nothing failed
(`env.faults == old(env.faults)`), which `Env.Since`, kept by every method, promises of all runs in quiet
surroundings (`Env.quiet`); statements about memory hold for all runs. Sockets and TLS
connections follow a finite script of outcomes, and statements hold for every script.

Block ciphers, stream ciphers, PBKDF2, EVP_BytesToKey, Base64 and `mktime` are function parameters. What
is assumed of them is a named predicate (`Cbc.BlockCipher.Valid`, `LegacyFormat.KdfLaw`,
`EvpFormat.ChunkingLaw`, `InverseLaw`, `LengthLaw`, `DerivationLaw`, `Base64Law`); `Cbc.CipherExists` and
`EvpFormat.Base64Example` show that the laws on ciphers, derivations and Base64 can be met.

## Where the code does not do what one would expect

Each of these is a proved statement, with the exact condition where there is one.

- DER lengths are written modulo 2^24, and the integer zero is written with empty content: neither reads
  back (`Der.LengthRoundTrip`, `Der.IntegerExact`, `Der.PrivKeyRoundTrip`).
- The buffer for a generated DH key is too small when the private value is as long as the modulus and
  the generator is small (`DhGenKey.KeyBufferTooSmall`; the exact condition is
  `DhGenKey.KeyBufferExact`). Such a value exists for every odd modulus, p - 1 among them
  (`DhGenKey.LargestKeyTooSmall`). A comment in the source expects the private value to be as long as q
  plus 64 bits, not as long as p; whether `wc_DhGenerateKeyPair` returns such a value for given
  parameters is outside the model.
- With an explicit IV the legacy format never signals padding, so the padding stays on the decrypted
  text; an all-zero key encrypts but is refused for decryption (`LegacyRoundTrip.KeyRoundTrip`).
- An empty file encrypts but the result is refused for decryption (`LegacyRoundTrip.PasswordRoundTrip`).
- A file of 2^32 bytes or more has its length wrapped to a smaller one; decryption may then report
  success with output that stops short of the payload (`LegacyFormat.WrappedLoses`).
- A plaintext of 2^31 bytes or more is reported as encrypted although at most a part of it is in the file,
  and up to 2^32 bytes nothing of it: its length does not fit an `int`, and the loop runs by that length
  (`LegacyFormat.LargeFileLost`, `LegacyRoundTrip.PasswordRoundTrip`). The same happens when the length
  cannot be told and counts as -1 (`LegacyEncrypt.Encrypt`).
- Encryption checks neither the writes of its header nor the closing of its output file, which is when
  buffered bytes are written; success can hide bytes lost there, and no other failure
  (`LegacyEncrypt.Encrypt`).
- With Base64 a stream comes back if and only if it has a byte at least and its text a size that fits an
  `int`; in a headerless mode without padding that excludes empty data (`EvpFormat.StreamRoundTrip`;
  failing inputs are in `EvpFormat.Base64Example`). Without Base64 every stream comes back.
- Decryption of a payload that is longer than a chunk and no whole number of blocks repeats plaintext of
  the chunk before, and takes the number of padding bytes from it (`LegacyFormat.DecryptExact`).
- The comment over the key-file reader promises that raw keys round-trip. A raw key made only of hex
  digits and whitespace does not: it is taken for hex text and refused (`KeyFile.RawKeyRoundTrip`).
- A GeneralizedTime in the index is accepted but read as if its year had two digits, so that its year
  and month are never both right (`OcspIndex.GeneralizedTimeMisread`).
- An index entry whose serial buffer cannot be allocated is skipped without a word: the responder is then
  told less than the file says, though never anything else (`OcspStatus.Populate`).
- Half of a one-byte message is no byte, so a halved write of it never delivers anything
  (`TlsServer.ServerWrite`).
- The echo loop returns 0 and stops on time even when a read broke or a write fell short and bytes were
  lost; with both `echoData` and a throughput it does nothing (`TlsServer.ServerEchoData`).

## Model

| member | source | states |
|---|---|---|
| Der.PrivKeyRoundTrip | src/dh/clu_dh.c:248-332 | The encoding reads back strictly as version 0, dhKeyAgreement, p, g and x, with every nested length framing its content and no byte left over, if and only if p, g, x are positive and the outer content is below 2^24 bytes |
| Der.PrivKeyUnique | src/dh/clu_dh.c:305-331 | Of all byte strings a strict reader takes for a private key, the written ones are exactly those of version 0 and dhKeyAgreement with positive p, g and x and content below 2^24 bytes: no other encoding of such a key is accepted |
| Der.PrivKeyDeclared | src/dh/clu_dh.c:37-320 | Read by an independent reader of X.690 section 8.19, the algorithm of a written key is 1.2.840.113549.1.3.1 |
| Der.DhOid | src/dh/clu_dh.c:37 | The nine bytes of the identifier decode to those arcs |
| Der.Examples | src/dh/clu_dh.c:147-332 | A long length, numbers with and without the zero octet, and a whole private key, byte by byte |
| Der.ParamsExact | src/dh/clu_dh.c:215-243 | The parameters alone read back, with nothing left over, if and only if p and g are positive and the content is below 2^24 bytes |
| Der.LengthRoundTrip | src/dh/clu_dh.c:39-87 | A strict reader recovers the length and any bytes after it if and only if the length is below 2^24 |
| Der.LengthReadsModulo | src/dh/clu_dh.c:39-87 | Any definite-form reader sees exactly the length modulo 2^24, so the bound is tight |
| Der.LengthCanonical | src/dh/clu_dh.c:49-87 | Whatever a strict reader accepts as a length below 2^24 is byte for byte what is written: the form is the unique minimal one of X.690 section 10.1 |
| Der.TlvRoundTrip | src/dh/clu_dh.c:127-144 | An element with content below 2^24 bytes is framed exactly: its content and the bytes after it are recovered |
| Der.TlvTooLong | src/dh/clu_dh.c:39-47 | From 2^24 content bytes on a reader stops before the end of the content |
| Der.IntegerExact | src/dh/clu_dh.c:147-203 | An INTEGER reads back, in front of any bytes, if and only if the number is positive and its content below 2^24 bytes |
| Der.IntegerRoundTrip | src/dh/clu_dh.c:180-203 | Below that size positive numbers read back and zero is refused |
| Der.IntegerCanonical | src/dh/clu_dh.c:147-203 | Every positive INTEGER a strict reader accepts is what is written for its value: the extra zero octet appears exactly when it must |
| DhDer.BytePrecisionCopy | src/dh/clu_dh.c:39-47 | The smallest byte count that holds the value, capped at three |
| DhDer.SetLengthCopy | src/dh/clu_dh.c:49-87 | Writes exactly the length octets at the cursor and nothing else; the count is the same with no output |
| DhDer.SetMyVersionCopy | src/dh/clu_dh.c:90-106 | Writes the version element in either form, byte by byte, or refuses a null output |
| DhDer.SetObjectIdCopy | src/dh/clu_dh.c:109-124 | Writes exactly tag and length; same count with no output |
| DhDer.SetSequenceCopy | src/dh/clu_dh.c:127-134 | Writes exactly tag and length; same count with no output |
| DhDer.SetOctetStringCopy | src/dh/clu_dh.c:137-144 | Writes exactly tag and length; same count with no output |
| DhDer.SetASNIntCopy | src/dh/clu_dh.c:147-177 | Writes the INTEGER header, with the zero octet when the first content byte has its top bit set; same count with no output |
| DhDer.SetASNIntMPCopy | src/dh/clu_dh.c:180-203 | Writes exactly the INTEGER element of the number; BUFFER_E if and only if a limit is given and the element is larger |
| DhDer.DhParamsToDer | src/dh/clu_dh.c:206-243 | The size pass reports exactly the bytes the write pass writes and returns; BUFFER_E leaves output and size alone; no byte outside the encoding is touched |
| DhDer.DhPrivKeyToDer | src/dh/clu_dh.c:246-332 | The same for the private key, whose bytes are those of Der.PrivKeyTlv and read back as a key of algorithm 1.2.840.113549.1.3.1; a private value that cannot be read is refused with nothing written |
| DhDer.WritePrivKey | src/dh/clu_dh.c:305-331 | The write pass cannot fail: the space left for the inner parameters always suffices |
| DhGenKey.EncodeGeneratedKey | src/dh/clu_dh.c:733-772 | Without failures around it, encoding a generated key succeeds if and only if the encoding fits the computed buffer, and then the buffer holds it |
| DhGenKey.KeyBufferSuffices | src/dh/clu_dh.c:746-766 | For moduli up to 4096 bits the buffer suffices whenever the INTEGER of x is at least 13 bytes shorter than that of p |
| DhGenKey.KeyBufferExact | src/dh/clu_dh.c:746-766 | For all p, g and x the buffer suffices if and only if a stated inequality between the sizes of their INTEGERs holds |
| DhGenKey.KeyBufferTooSmall | src/dh/clu_dh.c:746-766 | A private value as long as the modulus never fits when the INTEGER of the generator is at most 9 bytes, or at most 11 for values of 128 bytes and more |
| DhGenKey.LargestKeyTooSmall | src/dh/clu_dh.c:746-766 | For every odd modulus above 1 and small generator the private value p - 1 does not fit |
| DhGenKey.TooSmallExample | src/dh/clu_dh.c:746-766 | p = 23, g = 5, x = 22 do not fit |
| Cbc.CbcEquations | src/crypto/clu_encrypt.c:225-246 | Block j of a chunk is the encryption of plaintext block j combined with ciphertext block j-1, the IV before the first |
| Cbc.CbcRoundTrip | src/crypto/clu_decrypt.c:186-196 | CBC decryption undoes encryption on whole blocks for any IV |
| Cbc.ChunksRoundTrip | src/crypto/clu_decrypt.c:157-209 | Chunk-wise decryption undoes chunk-wise encryption across all 1024-byte boundaries and IV restarts |
| Cbc.ChunkEquations | src/crypto/clu_encrypt.c:177-299 | At every offset the ciphertext block is the encryption of the plaintext block there combined with the ciphertext block before it, or with the IV at the start of every 1024 bytes |
| Cbc.XorIsBitwise | src/crypto/clu_encrypt.c:225-246 | Combining is exclusive or: each bit is set exactly when one of the two bits is |
| LegacyEncrypt.GenKeyPwdBased | src/genkey/clu_genkey.c:1877-1907 | The first salt byte is zero if and only if there is no padding; the password buffer becomes the key stretched under that very salt with 4096 iterations; the last salt byte is not random |
| LegacyEncrypt.CountPadding | src/crypto/clu_encrypt.c:115-121 | The padding loop counts the bytes to the next whole block, none when already there |
| LegacyEncrypt.ReadChunk | src/crypto/clu_encrypt.c:179-223 | After reading and padding, the buffer holds exactly the next chunk of the text at work: the padded plaintext, or whole chunks of its front when the length wrapped |
| LegacyEncrypt.EncryptRound | src/crypto/clu_encrypt.c:178-296 | A round appends exactly the next chunk of the text, encrypted from the IV; every failure is reported but a failed close |
| LegacyEncrypt.EncryptLoop | src/crypto/clu_encrypt.c:177-299 | For every length in use the loop appends exactly the encrypted chunks of the text that length stands for; failures are reported unless closing the file lost bytes; a mode other than CBC is refused |
| LegacyEncrypt.Encrypt | src/crypto/clu_encrypt.c:93-312 | For files of every size the output is eight salt bytes, the IV and the encrypted chunks of the text the `int` length stands for, under the first `size` bits of the given key or of the password stretched with that salt in 4096 iterations; the marker tells of padding only without an explicit IV; success hides no failure but an untold length and bytes lost in the header or in closing |
| LegacyFormat.PadFits | src/crypto/clu_encrypt.c:210-215 | The padding never leaves the chunk that holds the end of the plaintext |
| LegacyFormat.PaddingBytes | src/crypto/clu_encrypt.c:210-215 | As many bytes are added as the last block lacks, fewer than a block, and each of them tells their number |
| LegacyFormat.CipherKeyBits | src/crypto/clu_encrypt.c:228 | The cipher gets the first `size` bits of the key |
| LegacyFormat.LargeFileLost | src/crypto/clu_encrypt.c:100-121 | From 2^31 bytes on the text that is encrypted is shorter than the plaintext, and up to 2^32 bytes it is empty |
| LegacyFormat.FileRoundTrip | src/crypto/clu_decrypt.c:92-231 | Decrypting an encrypted file gives the plaintext if its marker is set, the padded text otherwise, whatever the rest of the buffers held |
| LegacyFormat.DecryptExact | src/crypto/clu_decrypt.c:92-231 | For any key and any file of whole blocks or of more than a chunk, the exact status and output: the decrypted chunks, then for an incomplete block the bytes of the chunk before, less exactly what the last byte counts when the marker is set; a count beyond the last chunk is refused with only the chunks before it written |
| LegacyFormat.DecryptSizes | src/crypto/clu_decrypt.c:157-231 | For any file and key: the marker alone decides on padding, the last write is at most one chunk, the total is the payload less at most 255, and every byte a block operation covers is the decrypted one |
| LegacyFormat.WrappedLoses | src/crypto/clu_decrypt.c:78-99 | When the length in use is short of the file by a chunk or more, the output is shorter than the payload, also when success is reported |
| LegacyDecrypt.LoopCountFront | src/crypto/clu_decrypt.c:92-99 | The loop count names the chunk that holds the last payload byte |
| LegacyDecrypt.DecryptLoop | src/crypto/clu_decrypt.c:157-209 | The loop breaks on that chunk, for every length in use up to that of the file: everything before it is written, the buffer holds its whole blocks decrypted over the chunk before, and length is what remains plus the header |
| LegacyDecrypt.FinishDecrypt | src/crypto/clu_decrypt.c:211-231 | Writes the bytes that remain less the pad the last byte of the tail counts, refuses a pad beyond them, writes the whole tail when the marker is zero |
| LegacyDecrypt.SetUpKey | src/crypto/clu_decrypt.c:128-152 | The key in use is the stretched password or the given key; an all-zero given key is refused |
| LegacyDecrypt.Decrypt | src/crypto/clu_decrypt.c:36-244 | Refuses files without payload by their length as an int, writing nothing, and a given key that is all zero; otherwise, for files of every size, ends with a status and output the format allows under the first `size` bits of the given key or of the password stretched with the salt of the file; every buffer is freed on every path |
| LegacyRoundTrip.PasswordRoundTrip | src/crypto/clu_encrypt.c:93-312 | Encrypting a file with a password always reports success; decrypting the result under it returns the plaintext if and only if it is not empty and the size of its file fits an `int`; from 2^31 to 2^32 bytes the file is refused |
| LegacyRoundTrip.KeyRoundTrip | src/crypto/clu_encrypt.c:93-312 | With explicit key and IV the plaintext returns if and only if, besides, it is a whole number of blocks and the key is not all zero; otherwise the padding stays on |
| EvpFormat.StreamRoundTrip | src/crypto/clu_evp_crypto.c:141-418 | Decrypting under the same password or key and the same options returns the data if and only if Base64 is not asked for or fits, which the length of the data decides; otherwise it is refused or shorter data comes back |
| EvpFormat.StreamShape | src/crypto/clu_evp_crypto.c:177-418 | An encrypted stream spelled out: the text Salted__ and the salt when there is a header, then one run of the cipher under the caller's key and IV or under those derived from password and that same salt with 10000 iterations of PBKDF2 or one of EVP_BytesToKey, and Base64 over all of it |
| EvpFormat.Base64Example | src/crypto/clu_evp_crypto.c:88-116 | Failing inputs with all laws in force: with -nosalt and Base64 neither empty data nor any of 2^31 bytes and more comes back |
| EvpFormat.UserKeyIsHeaderless | src/crypto/clu_evp_crypto.c:41-49 | An explicit key makes -nosalt, password, digest and derivation irrelevant and leaves no header on either side |
| EvpCrypto.OpenInput | src/crypto/clu_evp_crypto.c:86-131 | Opens the file, decoded when Base64 is taken off; fails exactly on empty or undecodable Base64; the decode buffer is released |
| EvpCrypto.PrepareSalt | src/crypto/clu_evp_crypto.c:141-175 | Decryption goes on if and only if the text Salted__ and eight salt bytes are there when they are due, and then behind them with that salt |
| EvpCrypto.DeriveKey | src/crypto/clu_evp_crypto.c:177-234 | Key and IV are what PBKDF2 with 10000 iterations or EVP_BytesToKey with one makes of the password that was in the buffer and the salt, or no salt with -nosalt; an explicit key and IV are left alone |
| EvpCrypto.StreamLoop | src/crypto/clu_evp_crypto.c:330-380 | The loop feeds the cipher chunks that add up to exactly the rest of the input and writes what comes out, in order |
| EvpCrypto.RunCipher | src/crypto/clu_evp_crypto.c:305-394 | Loop and final block together write one whole run of the cipher; both buffers are released on every path |
| EvpCrypto.StartOutput | src/crypto/clu_evp_crypto.c:236-283 | The text Salted__ and the salt are written exactly for an encryption with neither -nosalt nor an explicit key |
| EvpCrypto.Crypt | src/crypto/clu_evp_crypto.c:35-438 | Without failures, encryption writes the stream of the format and decryption succeeds exactly when the stream can be decrypted, with the result as output |
| EvpCrypto.EncryptThenDecrypt | src/crypto/clu_evp_crypto.c:35-438 | Two runs of the command, with fresh buffers, return the data if and only if Base64 is not asked for or fits; what else decryption may succeed with is shorter |
| Environment.FreeBins | src/tools/clu_hex_to_bin.c:43-56 | Frees each of the five buffers given, once |
| Base16.DecodeSpells | src/tools/clu_hex_to_bin.c:80-81 | Decoding returns some bytes if and only if the text spells them, two digits a byte, each worth its place in the alphabet of its case |
| Base16.DecodeDefined | src/tools/clu_hex_to_bin.c:80-84 | Decoding fails exactly on an odd length or a byte that is no hex digit |
| Base16.DigitWorth | src/tools/clu_hex_to_bin.c:32-41 | Each digit of the two alphabets of RFC 4648 section 8 is a hex digit worth its place |
| Base16.DigitsOnly | src/tools/clu_hex_to_bin.c:36-41 | Nothing else is a hex digit |
| Base16.HexRoundTrip | src/tools/clu_hex_to_bin.c:80-81 | Decoding the hex text of any bytes, with the case of every digit chosen freely, returns the bytes |
| HexToBin.FillSlots | src/tools/clu_hex_to_bin.c:72-86 | The loop stops at the first slot that fails; every slot before it is decoded; the blocks taken are exactly the new live ones |
| HexToBin.Unwind | src/tools/clu_hex_to_bin.c:88-100 | From any failing slot back, every block is freed once, processed slots end null and empty, others untouched |
| HexToBin.Convert | src/tools/clu_hex_to_bin.c:61-103 | All or nothing: success leaves every wanted slot decoded in a block of its own; failure restores the set of live blocks; without failures it succeeds if and only if every wanted text decodes |
| HexToBin.ConvertText | src/tools/clu_hex_to_bin.c:61-103 | Converting the hex text of any bytes, in any mixture of cases, succeeds and gives a block of those bytes |
| KeyFile.LoadHexKeyInto | src/crypto/clu_crypto_setup.c:108-156 | Loads the decoded key if and only if the text has the right length and decodes; otherwise the key is unchanged; both temporaries are released |
| KeyFile.ScanIsHex | src/crypto/clu_crypto_setup.c:506-521 | True exactly when every byte is a hex digit or whitespace |
| KeyFile.HexTextAlphabet | src/crypto/clu_crypto_setup.c:512-521 | Hex files are those of hex digits of either case, spaces, tabs, carriage returns and newlines, and no others |
| KeyFile.CopyNonSpace | src/crypto/clu_crypto_setup.c:535-544 | Copies the bytes that are not whitespace, by the scan's own notion of it, in order, and terminates them |
| KeyFile.LoadHexText | src/crypto/clu_crypto_setup.c:523-555 | The hex branch loads exactly the key the stripped text spells |
| KeyFile.LoadKeyFile | src/crypto/clu_crypto_setup.c:454-580 | Loads exactly the key the file gives under the rule, else leaves the key buffer alone; a file that is not hex text loads verbatim if and only if its length is the key length; every block is released on every path |
| KeyFile.HexFileLoads | src/crypto/clu_crypto_setup.c:523-555 | A hex file loads a key if and only if the key has the right size and the digits spell it |
| KeyFile.HexKeyRoundTrip | src/crypto/clu_crypto_setup.c:506-555 | The hex text of any key, in any mixture of cases, loads that key |
| KeyFile.SpaceAnywhere | src/crypto/clu_crypto_setup.c:535-543 | Spaces, tabs, carriage returns and newlines may be inserted anywhere in hex text without changing the key |
| KeyFile.RawKeyRoundTrip | src/crypto/clu_crypto_setup.c:506-574 | A raw key loads back if and only if some byte of it is neither a hex digit nor whitespace; otherwise it is refused |
| OcspIndex.LinesCover | src/ocsp/clu_ocsp.c:431 | Line-wise reading neither loses nor repeats a byte; a piece fits the buffer and ends only at a newline, a full buffer or the end of the file |
| OcspIndex.FieldsJoin | src/ocsp/clu_ocsp.c:447 | Cutting at tabs and joining gives the text back; no field holds a tab |
| OcspIndex.LineThenRest | src/ocsp/clu_ocsp.c:431-507 | A line is parsed on its own, whatever follows |
| OcspIndex.PrintParseRoundTrip | src/ocsp/clu_ocsp.c:431-507 | Printing any records, with any lines that give no entry between them, and parsing the file yields exactly their statuses, times and serials in order |
| OcspIndex.PrintShape | src/ocsp/clu_ocsp.c:431-480 | A printed line is six fields with tabs between them and a newline at the end |
| OcspIndex.JunkGivesNothing | src/ocsp/clu_ocsp.c:436-495 | A line contributes nothing if and only if it is blank, has fewer than four fields, an empty or over-long serial, or is a revocation whose time is rejected |
| OcspIndex.UtcTimeRoundTrip | src/ocsp/clu_ocsp.c:456-464 | A printed UTCTime is read back component by component, also with text after it |
| OcspIndex.GeneralizedTimeMisread | src/ocsp/clu_ocsp.c:456-464 | A time with a four-digit year is never read with both year and month right; the year is right for 2020 alone |
| OcspParser.StrSep | src/ocsp/clu_ocsp.c:447 | The cursor walks the fields in order, an empty last one included, then ends |
| OcspParser.ParseFields | src/ocsp/clu_ocsp.c:446-480 | Status, time and serial of the entry come from fields 0, 2 and 3; two-digit years map as section 4.1.2.5.1 of RFC 5280 says; a long serial is left empty; at most six fields are counted |
| OcspParser.ParseOne | src/ocsp/clu_ocsp.c:432-507 | The list stays acyclic and properly ended; a line appends its entry or nothing; a rejected entry is freed; a failed allocation changes nothing |
| OcspParser.ParseIndexFile | src/ocsp/clu_ocsp.c:413-515 | However it ends, the list holds what the first lines say and is all that stays allocated; without failures it holds what the whole file says |
| OcspParser.FreeIndexEntries | src/ocsp/clu_ocsp.c:403-410 | Terminates having freed every node of the list exactly once |
| OcspStatus.Populate | src/ocsp/clu_ocsp.c:756-791 | The status calls are those of the entries with decodable serials, in list order, with some left out only where an allocation failed; every serial buffer is released; the list is unchanged |
| OcspStatus.CallDescribes | src/ocsp/clu_ocsp.c:772-788 | A call is made for a record if and only if it carries its decoded serial, GOOD for V only, REVOKED and the time for R only, 86400 for GOOD only |
| OcspStatus.IndexReachesResponder | src/ocsp/clu_ocsp.c:756-791 | From file to responder: a call is made if and only if some printed record calls for it |
| OcspStatus.IndexInOrder | src/ocsp/clu_ocsp.c:757-790 | The calls of a file of two parts are those of the first, then those of the second; one record gives at most one |
| OcspStatus.LoadIndex | src/ocsp/clu_ocsp.c:721-791 | Parsing, setting up the responder, populating and freeing leave nothing allocated on any path; whatever fails, the responder is told a part of what the file says, in order, and everything when nothing fails |
| OcspServer.HandleClient | src/ocsp/clu_ocsp.c:822-873 | What goes to the client is what the round calls for; a response that is sent carries malformed for a parse error, unauthorized for a missing signer or unknown certificate, internal error for the rest, successful without an error alone; only that counts |
| OcspServer.RepliesCases | src/ocsp/clu_ocsp.c:822-873 | What a round puts on the wire, case by case: nothing, 400, 405, 500, or a response whose status says malformed, unauthorized, internal error or successful for exactly the outcomes the code maps there |
| OcspServer.TransportReadRequest | src/ocsp/clu_ocsp.c:559-606 | A request that cannot be used is answered 400 or 405 and is not handed on |
| OcspServer.Serve | src/ocsp/clu_ocsp.c:810-890 | Over every run each accepted socket is closed exactly once and none stays open; what is on the wire is what the rounds call for, in order; the counter is the number of served rounds, never passes a positive limit, and the loop stops at the first round that reaches it |
| OcspServer.ServedIsSuccessful | src/ocsp/clu_ocsp.c:864-873 | Served rounds and successful responses on the wire are equally many, for every run |
| OcspServer.Run | src/ocsp/clu_ocsp.c:793-892 | The listening socket is closed last and once; the counter equals the successful responses that reached clients |
| TlsServer.ServerWrite | src/server/server.c:581-619 | Over every sequence of partial writes and errors the peer has taken a prefix of the message once and in order, and the final test holds exactly when it is the whole message; that is so if and only if the calls before one that fails for good take as many bytes as the message has, however many retries come between |
| TlsServer.ReadBlock | src/server/server.c:406-436 | Fills the block with the next input bytes, in order, when the reads carry as many bytes; it stops early only on a broken read, or as closed exactly on the first read that finds the peer closed |
| TlsServer.WriteBlock | src/server/server.c:442-455 | A prefix of the block is sent, once, however often the write has to be retried; all of it when no write falls short |
| TlsServer.EchoRound | src/server/server.c:393-466 | A round sends back exactly the block it read; with enough input and complete writes it loses nothing |
| TlsServer.ServerEchoData | src/server/server.c:376-490 | Given reads that carry the bytes block by block, with any number of retries, it finishes, and with writes that are complete it has echoed exactly throughput bytes, in order; a finished run takes ceil(throughput/block) rounds and is exact if and only if no read broke and no write fell short; it returns early only on the read that finds the peer closed |
| TlsClient.NonBlockingConnect | src/client/client.c:461-550 | It waits to send exactly after a connect that asks for it, waits to receive exactly after one that asks for that or after a timeout, and connects again exactly when the socket is ready; success is returned if and only if the last connect succeeded; never more than eleven timeouts in a row; and giving up has one of three causes |
| TlsClient.LongestRunBounds | src/client/client.c:529-537 | The bound on timeouts covers every stretch of consecutive ones, wherever it stands |

## Left out

Weaker than the code or its callers could ask:

- DhDer.SetASNIntMPCopy: the failure of `mp_to_unsigned_bin`, whose negative code callers add to the cursor unchecked, is not modelled; contents below 2^31 bytes only.
- DhDer.DhParamsToDer: encodings below 2^31 bytes only, since the sizes pass through an `int`; the same library failure.
- DhDer.DhPrivKeyToDer: the same limits.
- DhGenKey.EncodeGeneratedKey: stops before the PEM conversion and the output file.
- LegacyEncrypt.EncryptLoop: the hex-input branches within the cited lines.
- LegacyEncrypt.Encrypt: leaves out the lengths whose padding overflows an `int`: those that, as an `int`, exceed 2^31 less one block. What a failed run leaves in the file is not described.
- LegacyRoundTrip.PasswordRoundTrip: the same lengths.
- LegacyRoundTrip.KeyRoundTrip: the same lengths.
- LegacyDecrypt.Decrypt: the file is assumed not to change during a run.
- EvpCrypto.OpenInput: the branch that reads `hexIn` instead of a file. `wolfSSL_BIO_get_len` is taken to give the size converted to an `int`, without any limit of the library's own, and a Base64 write of no positive length to write nothing.
- EvpCrypto.Crypt: what a failed run leaves in the output file is not described; the salt is a result of the method because it is random.
- HexToBin.Convert: the caller's variables are distinct; texts are strings without NUL; the library's decoding error is one fixed non-zero code.
- OcspIndex.UtcTimeRoundTrip: a `char` is taken as signed, which matters only for bytes that are no digits.
- OcspIndex.PrintParseRoundTrip: lines shorter than the 1024-byte buffer; longer ones are split by fgets, as OcspIndex.LinesCover describes.
- OcspServer.Serve: overflow of the request counter after 2^31 requests without a limit; the run is a finite script, so a server that is never shut down is covered by its prefixes.
- TlsServer.ServerWrite: without the polling of asynchronous crypto.
- TlsServer.ServerEchoData: throughput below 2^31, above which a cast to `int` wraps; the buffer's allocation, whose failure the code only prints, is assumed to work; no timing output.
- TlsClient.NonBlockingConnect: without DTLS, asynchronous crypto and non-blocking OCSP.

Not modelled:

- The hex-input path of `wolfCLU_encrypt` and the `hexIn` path of `wolfCLU_evp_crypto`, which replace the input buffer.
- wolfSSL itself: ciphers, hashes, PBKDF2, Base64, ASN.1 reading, certificates, the TLS handshake. Its error codes, and the 64-character limit on serials, are taken as constants.
- Algorithms of the legacy commands other than Camellia in CBC mode.
- Option parsing, help text, logging, prompts, signals and the printing of keys.
- Clearing of secrets in memory; only the buffers a later result depends on are followed.
- HTTP and SCGI parsing: their outcomes are part of the responder's script.
- Benchmarks, PKCS #7, #8 and #12, pkey, rsa, dsa, ecparam, crl and x509 commands: thin wrappers over library calls.
