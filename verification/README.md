# CourseWork-server core in Dafny

A model of the logic at the heart of a small C++ TCP server. A client logs in
by a salted SHA-256 challenge-response, then sends batches of `uint32`
vectors and receives the saturating product of each. The model covers three
cooperating pieces, each written as pure functions over integers, strings and
byte sequences:

- **The vector protocol** (`VectorProcessor.cpp`):
  - `computeProduct` is the overflow-guarded product. It is an imperative
    loop whose invariant ties the running 64-bit product to the exact prefix
    product.
  - `receiveVector` decodes the big-endian framing.
  - `processVectors` is the batch loop, with its partial-batch and
    nothing-sent cases.
  - `sendResults` encodes the count-prefixed reply.
- **The credential table and challenge-response check** (`AuthManager.cpp`):
  - `loadUsers` parses `login:password` lines, and the last duplicate wins;
  - `userExists` looks a login up in the table;
  - `generateSalt` renders the 64-bit draw as zero-padded lowercase hex;
  - `computeHash` renders the digest as lowercase hex;
  - `verifyHash` compares with a length check and XOR accumulation.
- **The per-connection handshake** (`Server::handleClient`). It is a function
  from the user table, the digest engine, the salt draw and the client's
  input to the sequence of socket actions the server performs.

Modules:

| file | module | covers |
|---|---|---|
| wrappers.dfy | `Wrappers` | `Option` and `Result` |
| sequences.dfy | `Sequences` | the linear search of `std::string::find`, generic sequence facts |
| wire.dfy | `Wire` | machine integer types, `htonl`/`ntohl`, the byte-stream reader |
| product.dfy | `Product` | `computeProduct` and its loop-free specification |
| vectors.dfy | `VectorProtocol` | `receiveVector`, the batch loop, `sendResults`, `processVectors` |
| hex.dfy | `Hex` | `std::hex` / `setw` / `setfill('0')` rendering; the salt; digest hex |
| credentials.dfy | `Credentials` | `getline` line splitting, `loadUsers`, `userExists` |
| auth.dfy | `Auth` | `computeHash`, `verifyHash` |
| handshake.dfy | `Handshake` | `handleClient` |

What is a parameter rather than modelled:
- the socket;
- the SHA-256 engine, `Sha256Engine`, a function from the hashed string to
  digest bytes or to the EVP step that failed;
- the random salt draw, a `uint64`;
- the credential file's contents, `None` when the file cannot be opened.

Socket input is modelled in two ways:
- For the vector protocol it is one byte stream. A read of `k` bytes succeeds
  iff `k` bytes remain.
- For the two handshake reads it is the text available to that `recv`. Empty
  text stands for a read that returned 0 or an error.

The model follows what the code does in these places, where a reader might
expect otherwise:
- The salt and the hash are **lowercase** hex, not uppercase.
- The hash comparison is **case-sensitive**; nothing is uppercased before
  comparing. `Auth.UppercaseHashRejected` proves that an uppercased hash is
  refused.
- An unknown login gets an immediate `"ERR"` and **no salt**; the server does
  not issue a salt and go through the hash round trip for a login it does not
  know. `Handshake.UnknownLoginOnlyErr` proves this.
- Credential lines are split at the first colon with **no trimming, blank-line
  or `#`-comment handling**. A `#` line containing a colon is a user.
- Results are **batched**: one count-prefixed block after the loop, sent only
  when non-empty.
- A short read on a later vector does **not** abort the batch. The results for
  the vectors before it are still sent.
- A hashing failure inside `verifyHash` becomes an exception that
  `handleClient` catches. The socket is closed with no status token.

## Model

| member | source | states |
|---|---|---|
| Product.ComputeProduct | src/VectorProcessor.cpp:82-102 | the overflow-guarded loop returns the loop-free `SaturatingProduct`: 0 for the empty vector, the exact product when it fits, `UINT32_MAX` on overflow, 0 at a zero reached before any overflow |
| Product.FirstZero | src/VectorProcessor.cpp:88-91 | finds the first zero element: none iff no element is zero, otherwise a zero with no zero before it |
| Product.OverflowGuardExact | src/VectorProcessor.cpp:94 | the guard `product > MAX / x` holds exactly when `product * x` would exceed `2^32 - 1` |
| Product.ProdPrefixMonotone | src/VectorProcessor.cpp:87-98 | over zero-free elements the running product never shrinks as the prefix grows |
| Product.OverflowSaturates | src/VectorProcessor.cpp:88-96 | once a zero-free prefix overflows the result is `UINT32_MAX`, even if a zero follows |
| Product.ReferenceAgrees | tests/test_server.py:126-132 | on every non-empty vector the server's result equals the test client's multiply-clamp-stop expectation |
| Product.KnownProducts | src/VectorProcessor.cpp:82-101 | concrete results: the test client's vectors `[1,2,3,4]` gives 24, `[0,1,2,3]` gives 0, `[1000000,1000000]` and `[4294967295,2]` give `UINT32_MAX`; one input per branch of `computeProduct`: `[]` gives 0, `[0,5,9]` gives 0, `[4294967295]` fits exactly, and `[65536,65536,0]` and `[65536,65536,2]` give `UINT32_MAX` because the overflow is seen before the last element |
| Wire.ReadU32 | src/VectorProcessor.cpp:13-21 | reading a count succeeds iff four bytes remain, and consumes exactly the big-endian form of the value |
| Wire.ReadEncodedU32 | src/VectorProcessor.cpp:53-57 | reading the big-endian form of a word gives the word back and leaves the rest |
| Wire.EncodeDecodeU32 | src/VectorProcessor.cpp:21 | every four bytes are the `htonl` form of the word `ntohl` reads from them |
| Wire.DecodeEncodeU32 | src/VectorProcessor.cpp:106 | `ntohl` undoes `htonl` |
| Wire.EncodeU32Injective | src/VectorProcessor.cpp:113 | distinct words have distinct wire forms |
| Wire.DecodeWords | src/VectorProcessor.cpp:75-77 | decodes exactly `n` words, and they re-encode to the first `4n` bytes |
| Wire.DecodeEncodeWords | src/VectorProcessor.cpp:68-77 | decoding encoded words gives them back, whatever follows |
| VectorProtocol.ReceiveVector | src/VectorProcessor.cpp:51-80 | succeeds iff the 4-byte length is there and (length 0 or) `4 * length` element bytes follow; the vector has that length and the bytes consumed are exactly its encoding |
| VectorProtocol.ReceiveEncodedVector | src/VectorProcessor.cpp:51-80 | the client's encoding of any vector is received as that vector, leaving what follows |
| VectorProtocol.ReadBatch | src/VectorProcessor.cpp:27-39 | the loop reads at most `n` vectors; it is complete iff it read `n`; otherwise the input left cannot yield a vector |
| VectorProtocol.ReadBatchConsumes | src/VectorProcessor.cpp:27-39 | the vectors read, then the input left, are the input |
| VectorProtocol.ReadBatchInverts | src/VectorProcessor.cpp:27-39 | vectors sent in full come back in order; the loop stops exactly where a vector is missing |
| VectorProtocol.ReceiveBatch | src/VectorProcessor.cpp:27-39 | the loop with `receiveVector`: at most `n` vectors, in order, consuming exactly their encodings, stopping at the first incomplete one |
| VectorProtocol.ReceiveEncodedBatch | src/VectorProcessor.cpp:27-39 | vectors sent in full are received as sent, with or without a short tail |
| VectorProtocol.ComputeProducts | src/VectorProcessor.cpp:27-34 | running `computeProduct` on every received vector and pushing the results gives exactly one saturating product per vector, in order: the method-level loop agrees with the functional `Products` that `ProcessVectors` sends |
| VectorProtocol.SendResults | src/VectorProcessor.cpp:104-116 | the reply is `4 + 4*count` bytes: the big-endian count, then each result big-endian at its offset |
| Wire.EncodeWords | src/VectorProcessor.cpp:110-116 | the results block is four bytes per word, the `i`th four bytes being the big-endian form of the `i`th word; `Wire.DecodeEncodeWords` is its inverse |
| VectorProtocol.ResultsRoundTrip | tests/test_server.py:114-124 | the client's decoding of a reply gives back exactly the results sent |
| VectorProtocol.Reply | src/VectorProcessor.cpp:41-44 | nothing is sent iff no vector was read |
| VectorProtocol.ProcessVectors | src/VectorProcessor.cpp:13-18 | a failed count read (fewer than four bytes) sends nothing |
| VectorProtocol.ProcessAfterCount | src/VectorProcessor.cpp:10-49 | after the count the reply depends only on the vectors the loop read |
| VectorProtocol.ProcessBatch | src/VectorProcessor.cpp:10-49 | for `n` announced and `vs` sent in full: the reply is the products of `vs` in order, also when the batch is cut short, and nothing when `vs` is empty (also `n = 0`) |
| Hex.ToHex | src/AuthManager.cpp:46 | `std::hex` digits: lowercase hex, no leading zero, reads back as the value |
| Hex.FormatHex | src/AuthManager.cpp:46 | `setw`/`setfill('0')`: zero-padded to at least the width, exactly the width when the value fits, reads back as the value |
| Hex.ParseHexZeros | src/AuthManager.cpp:46 | left zero padding does not change the value |
| Hex.GenerateSalt | src/AuthManager.cpp:41-48 | the salt is exactly 16 lowercase hex characters that read back as the 64-bit draw |
| Hex.SaltInjective | src/AuthManager.cpp:41-48 | distinct draws give distinct salts |
| Hex.SaltSurjective | src/AuthManager.cpp:41-48 | every 16-character lowercase hex string is the salt of some draw |
| Hex.HexCanonical | src/AuthManager.cpp:46 | equal length and equal value mean the same hex string |
| Hex.HexEncode | src/AuthManager.cpp:83-86 | two lowercase hex characters per digest byte |
| Hex.HexRoundTrip | src/AuthManager.cpp:83-88 | the hex rendering of a digest reads back as the digest bytes |
| Hex.HexEncodeInjective | src/AuthManager.cpp:83-88 | distinct digests render differently |
| Sequences.IndexOf | src/AuthManager.cpp:24-25 | `find` of a character: none iff absent, else the first occurrence |
| Credentials.SplitLines | src/AuthManager.cpp:23 | `getline` yields lines without newlines, and none at all for an empty file |
| Credentials.JoinSplit | src/AuthManager.cpp:23 | the lines, each written back with a newline, are the file (with a final newline added if missing) |
| Credentials.SplitJoin | src/AuthManager.cpp:23 | newline-free lines written out are read back as the same lines |
| Credentials.ParseLine | src/AuthManager.cpp:24-29 | a line is skipped iff it has no colon; otherwise it is split at its first colon, so the login has no colon and login `:` password is the line |
| Credentials.ParseLineRoundTrip | src/AuthManager.cpp:24-29 | a colon-free login and any password, colons included, come back from their line |
| Credentials.LastDefinition | src/AuthManager.cpp:23-30 | the last line that defines a login, if any |
| Credentials.BuildTable | src/AuthManager.cpp:21-30 | the keys are the logins some line defines; each value is the password of the last such line |
| Credentials.LoadUsers | src/AuthManager.cpp:14-35 | fails and leaves the table untouched iff the file cannot be opened; otherwise the table is rebuilt from the file's lines alone, last duplicate winning |
| Credentials.LoadForgetsPrevious | src/AuthManager.cpp:21 | after a successful load the previous table does not matter |
| Credentials.TableHasDefined | src/AuthManager.cpp:23-29 | a login is a key iff some line defines it |
| Credentials.UserExistsAfterLoad | src/AuthManager.cpp:37-39 | `userExists` (`Credentials.UserExists`, a key lookup) after a successful load holds iff some line of the file defines the login |
| Credentials.TableHasLastPassword | src/AuthManager.cpp:28 | the last defining entry gives the password |
| Credentials.PasswordAfterLoad | src/AuthManager.cpp:21-30 | after loading, a login's password is the one on the last line defining it |
| Auth.ComputeHash | src/AuthManager.cpp:50-89 | succeeds iff the engine yields a 32-byte digest of exactly salt followed by password; then 64 lowercase hex characters reading back as the digest; an EVP failure surfaces as an error |
| Auth.HashSeesConcatenation | src/AuthManager.cpp:51 | only the concatenation is hashed: no separator between salt and password |
| Auth.BitXorZero | src/AuthManager.cpp:106 | `a ^ b` is 0 iff `a == b` |
| Auth.BitOrZero | src/AuthManager.cpp:106 | a bitwise or is 0 iff both operands are 0 |
| Auth.XorAccumulate | src/AuthManager.cpp:104-109 | the loop that ORs together the XOR of each pair of characters of two equal-length strings ends with 0 iff the strings are equal |
| Auth.VerifyHash | src/AuthManager.cpp:91-110 | false for an unknown login; an error iff hashing fails for a known one; true iff the login is known and the received string is exactly the computed hash |
| Auth.UppercaseHashRejected | src/AuthManager.cpp:99-109 | an uppercased hash containing a letter is refused |
| Handshake.CString | src/Server.cpp:139-140 | `std::string(buffer)` is the prefix before the first NUL |
| Handshake.ReadCString | src/Server.cpp:133-140 | the login and hash are at most the buffer limit, cut at the first NUL, a prefix of what arrived |
| Handshake.ServedTranscript | src/Server.cpp:166-172 | the accepted transcript closes once at the end, has one status, and has results only after `"OK"` |
| Handshake.HandleClient | src/Server.cpp:127-185 | every path closes the socket exactly once, as its last action; at most one status token; results only right after `"OK"`, and only on a served session |
| Handshake.LoginReadFailureSendsNothing | src/Server.cpp:134-138 | a failed login read closes without sending |
| Handshake.UnknownLoginOnlyErr | src/Server.cpp:143-150 | an unknown login gets exactly `"ERR"`, then close: no salt, no vector protocol |
| Handshake.KnownLoginGetsSalt | src/Server.cpp:143-153 | a known login is first sent the 16-character salt |
| Handshake.ServedIffVerified | src/Server.cpp:166-172 | the vector protocol runs, after `"OK"`, iff both reads succeed and `verifyHash` holds; every served session, whatever hash string was accepted, is exactly the salt, `"OK"`, the reply of `processVectors` on the vector input when that reply is non-empty, and the close |
| Handshake.WrongHashRejected | src/Server.cpp:174-178 | a known login with a wrong hash gets the salt, then `"ERR"`, then close |
| Handshake.NoTokenWithoutVerdict | src/Server.cpp:156-161 | a failed hash read or a hashing failure closes after the salt, with no status token |
| Handshake.HonestClientServed | src/Server.cpp:127-185 | a client that answers the salt with the right hash is served the products of its batch |
| Handshake.CStringOfPlain | src/Server.cpp:133-140 | a NUL-free string that fits the buffer is read unchanged |

## Left out

- Sockets, the accept loop and the detached thread per client (`Server.cpp` outside `handleClient`): OS I/O and concurrency. The socket is replaced by the input the client has sent and the list of actions the server takes.
- Short reads: the count and length `recv` calls run without `MSG_WAITALL`. The model assumes a read of `k` bytes returns `k` bytes whenever they are there.
- Handshake reads: each `recv` sees the text available to it. Bytes beyond the buffer limit are not carried over into the next read.
- `bad_alloc` from the two allocations of `processVectors`: `results.reserve(vectorCount)`, which asks for `4 * count` bytes before any vector is read (about 16 GiB for count `0xFFFFFFFF`), and `new uint32_t[size]` in `receiveVector`. `processVectors` catches the failure and sends nothing.
- VectorProtocol.ProcessBatch: assumes both allocations succeed. For a count or a vector length too large to allocate, the code sends nothing, while the model still sends the products of the vectors sent in full.
- The return values of `send`, which the code ignores. The two `send` calls of `sendResults` are one `Binary` payload in the model.
- SHA-256 itself and `SHA256.cpp`: the digest engine is the `Sha256Engine` parameter.
- The random generator of `generateSalt` (`mt19937` and `uniform_int_distribution`): the draw is a parameter.
- `Logger`: output only.
- `main.cpp`: command-line parsing and startup.
- The headers: their declarations are stale and not used.
- Bytes as characters: the login, the hash and the credential file are C++ byte strings. The model writes them as `string`, one `char` standing for one byte, so `LOGIN_LIMIT` (255) and `HASH_LIMIT` (64) count bytes, as the `recv(..., sizeof(buffer) - 1)` calls do. Characters above `0xFF`, and multi-byte UTF-8 text read as characters, are outside the model.
- Character signedness: strings are sequences of `char`. XOR and OR are defined on the non-negative character codes, so the sign extension of a `char` with its top bit set is not modelled. It does not change whether the accumulated value is zero.
- Auth.BitOr, Auth.BitXor: defined on unbounded non-negative integers rather than on `int`. The only property used, "zero iff equal" and "zero iff both zero", holds for both.
- Product.ReferenceProduct: models the test client's expectation loop. On the empty vector it gives 1 where the server gives 0; the client never sends an empty vector.
