# Proofs about RetroShare's library and the Yggdrasil router

This Dafny project models six components, four from the cryptographic, file sharing, chat and peer
discovery code of RetroShare's `libretroshare` and two from the Yggdrasil router, and proves what their
callers rely on. `dafny verify dfyconfig.toml` checks everything.

| files | component |
|---|---|
| `Words`, `NumberBits`, `UInt256`, `Poly1305`, `Poly1305Vector`, `ChaCha20`, `ChaCha20Vector`, `Aead`, `RsCrypto` | 256-bit limb arithmetic, the Poly1305 tag, the ChaCha20 cipher, the authenticated encryption made of them, and the envelope around it |
| `DirTree`, `DirUpdate`, `DirView`, `DirTotals`, `DirLocal`, `DirSubdirs`, `DirFiles`, `DirCheck`, `DirHierarchy`, `DirRuns` | the tree of shared directories kept in a slot array with a free list |
| `Lobby`, `LobbyRuns`, `LobbyNetwork` | flooding of chat lobby messages: cache, age limits, limiter; one node, its runs, and a network of nodes |
| `ConnectStateBox` | the connection state machine of one peer |
| `Bits`, `Address`, `AddressVector` | addresses and subnets derived from public keys, and partial keys derived back |
| `KeyStore`, `KeyFates` | the router's three key indexes and two packet buffers with their timers |

Each component has two halves. Functions on values say what the code computes: numbers for limbs,
bit strings for keys, slot sequences for the directory store, records for a box, a lobby or the key
store. Classes and methods then follow the code, loop by loop, and their postconditions tie the new
state to those functions. The results about whole runs, round trips and invariants are lemmas about
the functions; for the directory store, whole runs are methods that replay any sequence of operations.

Results that do not mention the functions fix what these compute: which bits clamping keeps, which bytes
a tag covers, what becomes of each packet, item, file and directory, and the examples of RFC 7539 and of
the address tests.

How the values read:

- A byte is a number below 256 and a limb a number below 2^32; wrap-around is written out. The value
  of limbs or bytes is their little-endian sum (`Prefix`, `LE`). Only the cipher works on bit vectors.
- `DirTree.Tree(n, depth)` says that every directory lists exactly the live nodes that name it as
  their parent, without repetition, each one level deeper; `Sub` is the set of slots of a subtree.
  `DirUpdate.Updated` is the whole result of an update: where each child comes from, what has gone,
  and that every other slot is as before.
- `KeyStore.Coherent` bundles the invariants of the key store; a run is any sequence of sends, learned
  keys and timer callbacks, for any record or buffer, however late.
- Clocks, random numbers, sets of connected peers and the outcome of signature checks are parameters.

## Where the code is not what it seems

- `poly1305_add` counts its blocks in 32 bits: from 2^32 - 15 bytes on it digests nothing
  (`Poly1305.ReachesAll`). Encryption and decryption agree on that, so the round trip still holds.
- `rs_malloc` ends the process for 0 bytes and for more than 1 GiB. `RsCrypto.RoundTrip` gives the
  exact sizes for which decryption after encryption returns.
- `decryptAuthenticateData` checks the declared size in 32 bits. A buffer of 20 to 35 bytes can pass
  the check with a declared size far beyond it; `RsCrypto.DecryptStaysInside` shows that the code stays
  inside its buffer exactly for the others, and `RsCrypto.WrapsAt` that there are such buffers.
  `encryptAuthenticateData` has the same limit for sizes from 2^32 - 35 on.
- The header of `rscrypto` promises that inputs are not touched, but decryption works in place in its
  input, also when the tag is wrong. The model follows the code.
- `updateDirEntry` finds old children by hash and by name. `DirUpdate.TreeIffDistinct` shows that it
  keeps the store a tree exactly when those were distinct; otherwise it leaves orphans. Such a store
  is reached by giving a hash or a name twice (`DirRuns.RepeatedHash`, `DirRuns.RepeatedName`); without
  repetitions every run stays a tree (`DirRuns.Replay`).
- The hashes of vanished directories are erased after those of the new children have been written, so a
  directory that moves up out of a vanished one is no longer found by its hash
  (`DirUpdate.ChildLinkedIff`, `DirRuns.ErasedHash`).
- `updateSubFilesList` overwrites a file's size before subtracting it, so the size counter does not
  follow a change of size on disk. `DirFiles.CounterFollowsIff` gives the exact condition.
- `check` looks at ranges and repetition of references only. It accepts references to empty slots, to
  nodes of the wrong kind, and cycles (`DirCheck.CleanMisfits`, `DirCheck.CleanCycle`);
  `DirCheck.TreeIffClean` states what a checked store lacks to be a tree. Deleting an orphan directory
  may leave new orphans (`DirCheck.OrphansAgain`): one check is enough exactly when no unreferenced
  directory is the first to refer to a live node (`DirCheck.CleanNextIff`). Later checks find the rest
  (`DirCheck.CheckedLess`).
- `connectCb_unreachable` compares the state where the network state was meant, so a peer that waited
  for TCP is always tried through proxies (`ConnectStateBox.OnlyOpenMatters`). Losing the proxy mode resets one of the two counters only.
- The age limit of lobby messages allows echoes for senders whose clock is more than 100 seconds
  ahead (`Lobby.PassedOnTwiceIffAhead`); without such clocks no link of a network is ever used twice
  (`LobbyNetwork.EveryRunSendsOnce`).
- Two keys can share an address. The key store then leads to the one learned last; when its record
  expires, the other stays known but its address leads nowhere, and learning it again does not help
  (`KeyStore.KnownKeyResolved`, `KeyStore.Stranded`).
- The comments of `AddrForKey` speak of a seven-bit count; the code uses a whole byte, which wraps for
  the key of 256 zero bits.

## Model

| member | source | states |
|---|---|---|
| `UInt256Limbs.UInt256.FromWords` | retroshare/libretroshare/src/crypto/chacha20.cpp:64-68 | limbs from high to low become the limbs stored low first |
| `UInt256Limbs.UInt256.Add` | retroshare/libretroshare/src/crypto/chacha20.cpp:98-110 | the eight-limb carry addition is addition modulo 2^256, also when a number is added to itself |
| `UInt256Limbs.UInt256.Increment` | retroshare/libretroshare/src/crypto/chacha20.cpp:116-121 | the limb walk that stops at the first non-zero limb adds one modulo 2^256 |
| `UInt256Limbs.UInt256.Complement` | retroshare/libretroshare/src/crypto/chacha20.cpp:134-148 | complementing the limbs gives 2^256 - 1 - value in a new number |
| `UInt256Limbs.UInt256.Sub` | retroshare/libretroshare/src/crypto/chacha20.cpp:111-115 | adding the complement and one is subtraction modulo 2^256, exact when it does not go below zero |
| `UInt256Limbs.UInt256.Less` | retroshare/libretroshare/src/crypto/chacha20.cpp:123-133 | the limb comparison from the top decides less-than of the values |
| `UInt256Limbs.UInt256.Clamp` | retroshare/libretroshare/src/crypto/chacha20.cpp:150-156 | the four low limbs are masked, the upper ones stay as they are |
| `UInt256Limbs.MaskLimbBits` | retroshare/libretroshare/src/crypto/chacha20.cpp:150-156 | bit by bit, the masked limb has the bits of the limb where 0x0ffffffc has a one, and zeros elsewhere |
| `UInt256Limbs.LowLimbBits` | retroshare/libretroshare/src/crypto/chacha20.cpp:150-156 | the same for the lowest limb and 0x0fffffff |
| `UInt256Limbs.UInt256.AddAt` | retroshare/libretroshare/src/crypto/chacha20.cpp:167-175 | one partial product lands at its two limbs, without the part above 2^256 |
| `UInt256Limbs.UInt256.Mul` | retroshare/libretroshare/src/crypto/chacha20.cpp:159-178 | the truncated schoolbook product is multiplication modulo 2^256 |
| `UInt256Limbs.UInt256.MaxNonZeroBit` | retroshare/libretroshare/src/crypto/chacha20.cpp:192-204 | the search by limbs, bytes and bits finds the top bit: value between that power of two and the next, -1 for zero |
| `UInt256Limbs.MaxNonZeroOfEightBits` | retroshare/libretroshare/src/crypto/chacha20.cpp:185-191 | the top bit of a byte, -1 for zero |
| `UInt256Limbs.UInt256.LShift` | retroshare/libretroshare/src/crypto/chacha20.cpp:205-224 | the two-stage shift multiplies by 2^n modulo 2^256 for every 32-bit n; 256 and more clear the number |
| `UInt256Limbs.UInt256.ShiftWords` | retroshare/libretroshare/src/crypto/chacha20.cpp:209-212 | the first stage multiplies by 2^32 for each whole limb, modulo 2^256 |
| `UInt256Limbs.UInt256.ShiftBits` | retroshare/libretroshare/src/crypto/chacha20.cpp:214-223 | the second stage multiplies by the remaining power of two, modulo 2^256 |
| `UInt256Limbs.UInt256.RShift` | retroshare/libretroshare/src/crypto/chacha20.cpp:239-252 | the limb shift halves the value |
| `UInt256Limbs.SchoolbookIsProduct` | retroshare/libretroshare/src/crypto/chacha20.cpp:159-178 | the sum of all limb products, each at its weight, is the product of the values |
| `UInt256Limbs.Quotient` | retroshare/libretroshare/src/crypto/chacha20.cpp:257-279 | given p > 0 and the top bit of n at or above that of p: n = q*p + r with r < p |
| `UInt256Limbs.TakeBit` | retroshare/libretroshare/src/crypto/chacha20.cpp:273-278 | one round of the division keeps n = q*p + r with r below the shifted divisor |
| `UInt256Limbs.Remainder` | retroshare/libretroshare/src/crypto/chacha20.cpp:281-294 | for every p > 0 the shift-and-subtract loop leaves n mod p, also when n has fewer bits than p |
| `Poly1305.DigestAppend` | retroshare/libretroshare/src/crypto/chacha20.cpp:469-488 | absorbing one message after another, the first a multiple of 16 bytes long, is absorbing their concatenation |
| `Poly1305.PaddedDigest` | retroshare/libretroshare/src/crypto/chacha20.cpp:461-488 | absorbing with the padding flag is absorbing the message filled up with zeros to a multiple of 16 |
| `Poly1305.DigestIsPolynomial` | retroshare/libretroshare/src/crypto/chacha20.cpp:469-488 | the running accumulator is the closed form of section 2.5 of RFC 7539: sum of block_i * r^(n-i+1) modulo 2^130 - 5 |
| `Poly1305.NoWrap` | retroshare/libretroshare/src/crypto/chacha20.cpp:482-486 | accumulator below 2^130 - 5, block below 2^129 and r below 2^124: the sum is below 2^131 and the product below 2^256 |
| `Poly1305.ClampedBound` | retroshare/libretroshare/src/crypto/chacha20.cpp:441-448 | every clamped key half is below 2^124 |
| `Poly1305.ClampedLimbs` | retroshare/libretroshare/src/crypto/chacha20.cpp:441-448 | masking the limbs of the first key half is clamping its bytes as section 2.5 of RFC 7539 prescribes |
| `Poly1305.ClampBits` | retroshare/libretroshare/src/crypto/chacha20.cpp:441-448 | for every key, each of the 128 bits of the clamped half is that of the key where 0x0ffffffc0ffffffc0ffffffc0fffffff has a one, and zero elsewhere |
| `Poly1305.StepIsAbsorb` | retroshare/libretroshare/src/crypto/chacha20.cpp:482-487 | addition, product and remainder on 256-bit limbs compute the step over unbounded numbers |
| `Poly1305.LoadBlock` | retroshare/libretroshare/src/crypto/chacha20.cpp:471-480 | the limbs of a block hold its bytes little-endian and one bit above them, at bit 128 when padded |
| `Poly1305.ReachesAll` | retroshare/libretroshare/src/crypto/chacha20.cpp:469 | the block count covers the whole message exactly when size + 15 fits 32 bits; otherwise nothing is digested |
| `Poly1305.State.constructor` | retroshare/libretroshare/src/crypto/chacha20.cpp:439-459 | r is the clamped first key half, s the second half, the accumulator 0 |
| `Poly1305.State.Step` | retroshare/libretroshare/src/crypto/chacha20.cpp:482-487 | one block is absorbed |
| `Poly1305.State.Update` | retroshare/libretroshare/src/crypto/chacha20.cpp:463-489 | the accumulator becomes the digest of the bytes reached, continuing from its old value; the message is untouched |
| `Poly1305.State.Finish` | retroshare/libretroshare/src/crypto/chacha20.cpp:491-499 | the tag spells accumulator + s modulo 2^128, lowest byte first |
| `Poly1305.TagValue` | retroshare/libretroshare/src/crypto/chacha20.cpp:495-498 | the sixteen bytes cut out of four limbs spell the value modulo 2^128 |
| `Poly1305.Tag` | retroshare/libretroshare/src/crypto/chacha20.cpp:501-508 | the tag is that of section 2.5 of RFC 7539 for every key and every message with size + 15 below 2^32 |
| `Poly1305Vector.ExampleTag` | retroshare/libretroshare/src/crypto/chacha20.cpp:984-996 | the key and the message of section 2.5.2 of RFC 7539 have the tag a8061dc1305136c6c22b8baf0c0127a9, through its three blocks |
| `ChaCha20.QuarterInjective` | retroshare/libretroshare/src/crypto/chacha20.cpp:325-331 | the quarter round loses nothing: equal results come from equal inputs |
| `ChaCha20.RoundsInjective` | retroshare/libretroshare/src/crypto/chacha20.cpp:339-349 | any number of double rounds is injective on states |
| `ChaCha20.ColumnsApart` | retroshare/libretroshare/src/crypto/chacha20.cpp:341-344 | the column round is the quarter round on each of the four columns of the state |
| `ChaCha20.DiagonalsApart` | retroshare/libretroshare/src/crypto/chacha20.cpp:345-348 | with row r turned left by r, the diagonal round becomes the column round |
| `ChaCha20.RoundsByColumns` | retroshare/libretroshare/src/crypto/chacha20.cpp:339-349 | so any number of double rounds works column by column, between turns and turns back of the rows |
| `ChaCha20Vector.ExampleBlock` | retroshare/libretroshare/src/crypto/chacha20.cpp:765-797 | key 00 to 1f, counter 1 and nonce 000000090000004a00000000 give the sixteen words of section 2.3.2 of RFC 7539, one double round at a time |
| `ChaCha20Vector.ExampleBytes` | retroshare/libretroshare/src/crypto/chacha20.cpp:381-383 | and these words leave as the bytes 10 f1 e7 e4 d1 3b 59 15 |
| `ChaCha20.MixWords` | retroshare/libretroshare/src/crypto/chacha20.cpp:325-331 | one add-xor-rotate step in place |
| `ChaCha20.QuarterRound` | retroshare/libretroshare/src/crypto/chacha20.cpp:325-331 | four words of the state get the quarter round, the other twelve stay |
| `ChaCha20.Apply20Rounds` | retroshare/libretroshare/src/crypto/chacha20.cpp:335-352 | ten column and diagonal rounds, then the input state added word by word |
| `ChaCha20.NewState` | retroshare/libretroshare/src/crypto/chacha20.cpp:301-322 | constants, key, counter and nonce in their places, words little-endian |
| `ChaCha20.Encrypt` | retroshare/libretroshare/src/crypto/chacha20.cpp:364-385 | each of the size bytes is combined once with its key-stream byte, of block counter + i/64 mod 2^32; other bytes stay |
| `ChaCha20.XorBitsTwice` | retroshare/libretroshare/src/crypto/chacha20.cpp:381-383 | exclusive or with the same number twice restores it |
| `ChaCha20.XorBitsBit` | retroshare/libretroshare/src/crypto/chacha20.cpp:381-383 | each bit of the combined byte is one exactly when one of the two bits is |
| `ChaCha20.CipherTwice` | retroshare/libretroshare/src/crypto/chacha20.cpp:364-385 | encryption is its own inverse for every size and every starting counter, wrap of the counter included |
| `Aead.KeyGen` | retroshare/libretroshare/src/crypto/chacha20.cpp:510-520 | the one-time key is the first half of key-stream block 0 |
| `Aead.OneStream` | retroshare/libretroshare/src/crypto/chacha20.cpp:510-544 | one-time key and cipher text share no key-stream byte: they are the first 32 bytes, and all bytes from the 64th on, of 64 zero bytes and the data encrypted from block 0 on |
| `Aead.LengthsVector` | retroshare/libretroshare/src/crypto/chacha20.cpp:534-540 | both sizes as 64-bit little-endian numbers |
| `Aead.TranscriptLayout` | retroshare/libretroshare/src/crypto/chacha20.cpp:534-552 | what the tag covers: both strings at multiples of 16 bytes, zeros between them, and both sizes little-endian in the last 16 bytes |
| `Aead.ThreeUpdates` | retroshare/libretroshare/src/crypto/chacha20.cpp:550-552 | three padded updates leave the accumulator of one pass over pad16(aad), pad16(ciphertext) and the sizes, for all lengths (section 2.8 of RFC 7539) |
| `Aead.PolyTag` | retroshare/libretroshare/src/crypto/chacha20.cpp:548-554 | the tag computed in three updates is the tag of the whole transcript |
| `Aead.TagIsStandard` | retroshare/libretroshare/src/crypto/chacha20.cpp:543-555 | below 2^32 - 15 bytes that tag is the one of section 2.8 of RFC 7539 |
| `Aead.MacEnds` | retroshare/libretroshare/src/crypto/chacha20.cpp:681-684 | what the MAC is given begins with 16 bytes of additional data and ends with the cipher text: MACs that return its ends return these |
| `Aead.LEInjective` | retroshare/libretroshare/src/crypto/chacha20.cpp:574 | byte strings of one size with one value are equal, so comparing tags compares numbers |
| `Aead.AeadInPlace` | retroshare/libretroshare/src/crypto/chacha20.cpp:527-576 | wherever data, additional data and tag lie, apart from one another: encryption replaces data and tag and nothing else; decryption tests the tag over the cipher text and replaces the data even when it is wrong |
| `Aead.OpenSealed` | retroshare/libretroshare/src/crypto/chacha20.cpp:527-576 | what was sealed opens: the tag is right and the data come back, for both tag kinds |
| `RsCrypto.SizeRoundTrip` | retroshare/libretroshare/src/crypto/rscrypto.cpp:157-161 | the four size bytes read back as the size |
| `RsCrypto.EncryptAuthenticateData` | retroshare/libretroshare/src/crypto/rscrypto.cpp:46-123 | header, vector, size, cipher text and tag in one buffer; or the end of the process in the allocator, also when the 32-bit total is 0 |
| `RsCrypto.DecryptAuthenticateData` | retroshare/libretroshare/src/crypto/rscrypto.cpp:126-208 | for every buffer but those that wrap: checks in order, then decryption in place in the input; data, false, or the end of the process in the allocator |
| `RsCrypto.DecryptStaysInside` | retroshare/libretroshare/src/crypto/rscrypto.cpp:163-172 | of the buffers that pass the 32-bit size check, data and tag lie inside exactly those that do not wrap, and exactly those are well-formed |
| `RsCrypto.WrapsAt` | retroshare/libretroshare/src/crypto/rscrypto.cpp:163 | for each length from 20 to 35 a buffer that passes the check and wraps |
| `RsCrypto.EncryptStaysInside` | retroshare/libretroshare/src/crypto/rscrypto.cpp:58-103 | data and tag lie inside the allocated envelope exactly when its size does not wrap 32 bits |
| `RsCrypto.AcceptsExactlyEnvelopes` | retroshare/libretroshare/src/crypto/rscrypto.cpp:126-208 | decryption returns data exactly for the envelopes sealed from it, of either format, of 1 byte to 1 GiB |
| `RsCrypto.OpensIffMac` | retroshare/libretroshare/src/crypto/rscrypto.cpp:126-208 | an envelope of format 2 opens exactly when its tag is the MAC, under the whole key, of all bytes between header and tag |
| `RsCrypto.OpensIffStandard` | retroshare/libretroshare/src/crypto/rscrypto.cpp:126-208 | one of format 1 opens, whatever the MAC, exactly when its tag is the tag of section 2.8 of RFC 7539 for those bytes |
| `RsCrypto.EveryByteCounts` | retroshare/libretroshare/src/crypto/rscrypto.cpp:126-208 | for any format-2 envelope and any buffer that differs from it in vector, size or cipher text and not in the tag, some MAC accepts the one and refuses the other |
| `RsCrypto.Layout` | retroshare/libretroshare/src/crypto/rscrypto.cpp:75-112 | the bytes encryption writes: ae ad 02 01, the vector, the size little-endian, each data byte combined with its byte of the key stream from block 1 on |
| `RsCrypto.OpensItsEnvelope` | retroshare/libretroshare/src/crypto/rscrypto.cpp:126-208 | every envelope of either format, also an empty or huge one, passes all checks and opens to its data |
| `RsCrypto.RoundTrip` | retroshare/libretroshare/src/crypto/rscrypto.cpp:46-208 | decrypting what was encrypted yields the data exactly for 1 to 2^30 - 36 bytes; outside, an allocation ends the process |
| `Address.CompressExpand` | noirajjo/noirajjo/src/address/address.go:51-142 | expanding an address body and compressing the key again gives the body back exactly when it is consistent: no one-bits beyond the key |
| `Address.CompressConsistent` | noirajjo/noirajjo/src/address/address.go:72-88 | compression only yields consistent bodies |
| `Address.ExpandGreatest` | noirajjo/noirajjo/src/address/address.go:118-142 | the expanded key is the greatest of all keys with that compression, and has it |
| `Address.Antitone` | noirajjo/noirajjo/src/address/address.go:51-94 | among non-zero keys a larger key never has a larger compression |
| `Address.TransformStable` | noirajjo/noirajjo/src/address/address.go:101-150 | compressing, cutting to the subnet length and expanding is stable under both partial inversions |
| `Address.AddrForKey` | noirajjo/noirajjo/src/address/address.go:51-94 | nothing unless the key has 32 bytes; else prefix, count of leading zero bits modulo 256, and the inverted rest |
| `Address.CountAndGather` | noirajjo/noirajjo/src/address/address.go:66-88 | the bit loop counts the leading ones and packs the whole bytes of the rest |
| `Address.InvertAll` | noirajjo/noirajjo/src/address/address.go:63-65 | every bit of the buffer is inverted in place |
| `Address.SubnetForKey` | noirajjo/noirajjo/src/address/address.go:101-114 | the first eight bytes of the address with the subnet bit set |
| `Address.GetKey` | noirajjo/noirajjo/src/address/address.go:118-142 | the partial key: as many zeros as counted, a one, the inverted rest, then ones |
| `Address.SubnetGetKey` | noirajjo/noirajjo/src/address/address.go:146-150 | the partial key of the subnet followed by zero bytes |
| `Address.AddressRoundTrip` | noirajjo/noirajjo/src/address/address.go:51-142 | an address comes back from its partial key exactly when it has the prefix and a consistent body |
| `Address.DerivedAddressRoundTrip` | noirajjo/noirajjo/src/address/address.go:51-142 | for every 32-byte key the address of the partial key of its address is its address |
| `Address.PartialKeyGreatest` | noirajjo/noirajjo/src/address/address.go:116-142 | the partial key of an address is the greatest key, read big-endian, with that address |
| `Address.SharedAddress` | noirajjo/noirajjo/src/address/address.go:51-94 | keys that begin with a one bit and agree in fifteen bytes share their address |
| `AddressVector.HighKey` | noirajjo/noirajjo/src/address/address.go:51-94 | the address of a key that begins with a one bit: 02 00 and the inverted key shifted left by one bit |
| `AddressVector.HighAddress` | noirajjo/noirajjo/src/address/address.go:118-142 | the way back: a one, the inverted rest of the address shifted right by one bit, then ones |
| `AddressVector.ExampleAddress` | noirajjo/noirajjo/src/address/address_test.go:56-69 | the address of the example key |
| `AddressVector.ExampleSubnet` | noirajjo/noirajjo/src/address/address_test.go:71-82 | its subnet |
| `AddressVector.ExampleKey` | noirajjo/noirajjo/src/address/address_test.go:84-99 | the partial key of the example address |
| `AddressVector.ExampleSubnetKey` | noirajjo/noirajjo/src/address/address_test.go:101-114 | the partial key of the example subnet |
| `Address.AddressesAntitone` | noirajjo/noirajjo/src/address/address.go:51-94 | for non-zero keys, a larger key never has a larger address, both read big-endian |
| `Address.LookupKeyStable` | noirajjo/noirajjo/src/address/address.go:101-150 | the lookup key of the subnet is the same for a key, for its address's partial key and for its subnet's partial key |
| `KeyStore.SendCoherent` | noirajjo/noirajjo/src/ipv6rwc/ipv6rwc.go:77-133 | a send keeps every invariant of the store and undoes nothing: the packet is written to a key of its destination or takes the place of an older one |
| `KeyStore.LearnCoherent` | noirajjo/noirajjo/src/ipv6rwc/ipv6rwc.go:135-164 | learning a key keeps every invariant: the packets flushed were for its address or subnet |
| `KeyStore.ExpireCoherent` | noirajjo/noirajjo/src/ipv6rwc/ipv6rwc.go:170-182 | a record's timer, whenever and for whatever record it fires, keeps every invariant |
| `KeyStore.DiscardCoherent` | noirajjo/noirajjo/src/ipv6rwc/ipv6rwc.go:94-100 | a buffer's timer, also one stopped too late, keeps every invariant |
| `KeyStore.FlushAccounted` | noirajjo/noirajjo/src/ipv6rwc/ipv6rwc.go:149-156 | a flushed packet leaves its buffer and is written for the first and only time |
| `KeyStore.ReleaseAccounted` | noirajjo/noirajjo/src/ipv6rwc/ipv6rwc.go:94-100 | taking a packet out of its buffer gives it its one fate, written or dropped |
| `KeyStore.RunCoherent` | noirajjo/noirajjo/src/ipv6rwc/ipv6rwc.go:77-183 | in every run from the empty store: entries point to records the key index holds, no destination is both buffered and resolved, every packet is written, held or dropped exactly once and for good |
| `KeyStore.WritesReachTheirDestination` | noirajjo/noirajjo/src/ipv6rwc/ipv6rwc.go:77-183 | in every run each packet handed over went to a key whose address or subnet is its destination, and as many were handed over as there are such packets |
| `KeyFates.ResolvedFate` | noirajjo/noirajjo/src/ipv6rwc/ipv6rwc.go:77-82 | in every run a packet for a resolved destination goes to the key of its record at once |
| `KeyFates.EndedFate` | noirajjo/noirajjo/src/ipv6rwc/ipv6rwc.go:84-164 | any other packet waits for the first event that teaches a key of its destination, brings a later packet for it, or is the timer of its buffer; the first sends it to that key, the others lose it |
| `KeyFates.HeldFate` | noirajjo/noirajjo/src/ipv6rwc/ipv6rwc.go:84-101 | without such an event it is still held when the run ends |
| `KeyStore.ResolvedIff` | noirajjo/noirajjo/src/ipv6rwc/ipv6rwc.go:135-183 | after every run a destination leads to the record of the key last taught for it, if that has not expired, and else to nothing |
| `KeyStore.KnownIff` | noirajjo/noirajjo/src/ipv6rwc/ipv6rwc.go:135-183 | a key is known exactly when some event taught it and its record has not expired since |
| `KeyStore.KnownKeyResolved` | noirajjo/noirajjo/src/ipv6rwc/ipv6rwc.go:135-183 | a known key's address or subnet leads to its record exactly when no other key with it was taught later; learning it again changes nothing |
| `KeyStore.Stranded` | noirajjo/noirajjo/src/ipv6rwc/ipv6rwc.go:141-181 | two keys with one address, the second expires: the first is known, its address leads nowhere, and learning it again does not help |
| `KeyStore.TwoKeysOneAddress` | noirajjo/noirajjo/src/address/address.go:51-94 | there are two such keys |
| `KeyStore.KeyInfo.constructor` | noirajjo/noirajjo/src/ipv6rwc/ipv6rwc.go:141-145 | a record holds the address and subnet of its key |
| `KeyStore.KeyArray` | noirajjo/noirajjo/src/ipv6rwc/ipv6rwc.go:137-138 | the key as indexed: cut to its first 32 bytes or filled up with zeros |
| `KeyStore.KeyStore.constructor` | noirajjo/noirajjo/src/ipv6rwc/ipv6rwc.go:58-75 | the empty store |
| `KeyStore.KeyStore.SendToAddress` | noirajjo/noirajjo/src/ipv6rwc/ipv6rwc.go:77-104 | performs the send step for an address; returns the key written to, or the partial key to look up |
| `KeyStore.KeyStore.SendToSubnet` | noirajjo/noirajjo/src/ipv6rwc/ipv6rwc.go:106-133 | the same for a subnet |
| `KeyStore.KeyStore.KeepForAddress` | noirajjo/noirajjo/src/ipv6rwc/ipv6rwc.go:84-90 | the packet replaces that of the address's own buffer, new when there was none; no other buffer changes |
| `KeyStore.KeyStore.Update` | noirajjo/noirajjo/src/ipv6rwc/ipv6rwc.go:135-164 | performs the learning step; returns the record and the packets flushed, address first |
| `KeyStore.KeyStore.ExpireInfo` | noirajjo/noirajjo/src/ipv6rwc/ipv6rwc.go:170-182 | removes the record from each index where it is still the entry |
| `KeyStore.KeyStore.ExpireAddrBuffer` | noirajjo/noirajjo/src/ipv6rwc/ipv6rwc.go:94-100 | drops the buffer if it is still the one in place |
| `KeyStore.KeyStore.ExpireSubnetBuffer` | noirajjo/noirajjo/src/ipv6rwc/ipv6rwc.go:123-129 | the same for subnets |
| `DirTree.LevelDisjoint` | retroshare/libretroshare/src/file_sharing/dir_hierarchy.cc:1021-1038 | subtrees of two directories on one level share no slot |
| `DirTree.SubSplit` | retroshare/libretroshare/src/file_sharing/dir_hierarchy.cc:1027-1033 | a subtree is its directory, the subtrees of its subdirectories and its files |
| `DirTree.AllBelowRoot` | retroshare/libretroshare/src/file_sharing/dir_hierarchy.cc:60-75 | every live slot lies below slot 0 |
| `DirTree.PrunedTree` | retroshare/libretroshare/src/file_sharing/dir_hierarchy.cc:251-286 | the tree without one subtree and its reference is a tree |
| `DirTree.SwapPopSame` | retroshare/libretroshare/src/file_sharing/dir_hierarchy.cc:273-274 | swapping in the last entry and shortening removes exactly one entry |
| `DirTree.ShapeTree` | retroshare/libretroshare/src/file_sharing/dir_hierarchy.cc:387-414 | changes of contents, rows, times and hashes keep the tree |
| `DirTree.TotalsUpdate` | retroshare/libretroshare/src/file_sharing/dir_hierarchy.cc:387-437 | replacing one slot changes sum and count by the difference |
| `DirUpdate.DistinctFound` | retroshare/libretroshare/src/file_sharing/dir_hierarchy.cc:487-490 | the map from hashes to old subdirectories finds each under its own hash exactly when the hashes are distinct |
| `DirUpdate.DistinctFoundFiles` | retroshare/libretroshare/src/file_sharing/dir_hierarchy.cc:553-556 | the same for names and files |
| `DirUpdate.UpdatedTree` | retroshare/libretroshare/src/file_sharing/dir_hierarchy.cc:463-633 | with distinct old siblings the updated slots are a tree, for every given list of hashes and files |
| `DirUpdate.TreeIffDistinct` | retroshare/libretroshare/src/file_sharing/dir_hierarchy.cc:487-613 | the updated slots are a tree exactly when the old subdirectories had distinct hashes and the old files distinct names |
| `DirUpdate.HiddenDir` | retroshare/libretroshare/src/file_sharing/dir_hierarchy.cc:487-549 | a subdirectory behind another of the same hash stays live and unlisted: an orphan |
| `DirUpdate.HiddenFile` | retroshare/libretroshare/src/file_sharing/dir_hierarchy.cc:553-613 | the same for a file behind another of the same name |
| `DirUpdate.UpdatedDistinct` | retroshare/libretroshare/src/file_sharing/dir_hierarchy.cc:463-633 | an update with distinct hashes and names leaves siblings distinct everywhere, so the next one keeps the tree too |
| `DirUpdate.PrunedDistinct` | retroshare/libretroshare/src/file_sharing/dir_hierarchy.cc:251-286 | removing a directory keeps siblings distinct |
| `DirUpdate.ChildAtItsRow` | retroshare/libretroshare/src/file_sharing/dir_hierarchy.cc:617-629 | after an update each child names the directory as parent and is found under its own row |
| `DirView.GivenChildren` | retroshare/libretroshare/src/file_sharing/dir_hierarchy.cc:492-629 | the children are the given hashes and files in order, with their rows, every given field of each file, and subdirectories marked for an update of their own |
| `DirView.NewChild` | retroshare/libretroshare/src/file_sharing/dir_hierarchy.cc:514-530 | a subdirectory whose hash was not there before is an empty one in a slot that was empty |
| `DirView.KeptSubtree` | retroshare/libretroshare/src/file_sharing/dir_hierarchy.cc:501-513 | with distinct old siblings, a subdirectory whose hash is given again keeps its slot, name and other times, and every node below it stays as it was |
| `DirView.VanishedSubtree` | retroshare/libretroshare/src/file_sharing/dir_hierarchy.cc:537-549 | of a subdirectory whose hash is not given nothing stays; only new files may take its slots |
| `DirView.OldFile` | retroshare/libretroshare/src/file_sharing/dir_hierarchy.cc:560-613 | a file whose name is given again keeps its slot; the slot of one whose name is not is empty |
| `DirView.OutsideStays` | retroshare/libretroshare/src/file_sharing/dir_hierarchy.cc:463-633 | no node outside the updated directory changes |
| `DirUpdate.NewSiblings` | retroshare/libretroshare/src/file_sharing/dir_hierarchy.cc:492-598 | the updated directory has distinct children exactly when the arguments name each hash and each file once |
| `DirUpdate.RepeatsBreakNext` | retroshare/libretroshare/src/file_sharing/dir_hierarchy.cc:487-613 | after arguments that repeat a hash or a name, no next update of that directory leaves a tree |
| `DirUpdate.FileChangeDistinct` | retroshare/libretroshare/src/file_sharing/dir_hierarchy.cc:387-414 | a file may take any name free in its directory: siblings stay distinct |
| `DirUpdate.LinkedAt` | retroshare/libretroshare/src/file_sharing/dir_hierarchy.cc:525-533 | of the children given one hash, the last is the one the hash leads to |
| `DirUpdate.LinkedElsewhere` | retroshare/libretroshare/src/file_sharing/dir_hierarchy.cc:525-533 | hashes not given lead where they led before |
| `DirUpdate.ChildLinkedIff` | retroshare/libretroshare/src/file_sharing/dir_hierarchy.cc:494-549 | after an update the hash of a child leads to it exactly when no removed directory had that hash |
| `DirUpdate.VanishesInside` | retroshare/libretroshare/src/file_sharing/dir_hierarchy.cc:537-549 | when the only subdirectory vanishes, the hash of a directory inside it is erased |
| `DirUpdate.LinkedFileAt` | retroshare/libretroshare/src/file_sharing/dir_hierarchy.cc:578-592 | the hash of a file leads to the last file given with it |
| `DirUpdate.PhasesUpdated` | retroshare/libretroshare/src/file_sharing/dir_hierarchy.cc:463-633 | placing, removing, placing files, deleting and numbering together make the stated result |
| `DirTotals.RootSize` | retroshare/libretroshare/src/file_sharing/dir_hierarchy.cc:673-688 | the files below the root are all the files |
| `DirTotals.SizeSplit` | retroshare/libretroshare/src/file_sharing/dir_hierarchy.cc:679-684 | the size below a directory is that of its files and that below its subdirectories |
| `DirTotals.LatestIs` | retroshare/libretroshare/src/file_sharing/dir_hierarchy.cc:695-706 | the latest time in a set is the least bound of the directories' times and the hashed files' times |
| `DirTotals.RecentBounds` | retroshare/libretroshare/src/file_sharing/dir_hierarchy.cc:691-724 | for all 64-bit times: the computed time is the true maximum when everything below is hashed or nothing is later than 1970, else strictly less, by at most one second a level and never before 1970 |
| `DirTotals.HashingRaises` | retroshare/libretroshare/src/file_sharing/dir_hierarchy.cc:716-719 | once the last file below a directory has its hash, the computed time is strictly larger |
| `DirLocal.PrunedWithin` | retroshare/libretroshare/src/file_sharing/dir_hierarchy.cc:251-286 | when one subtree is removed, every slot that stays lies in the same subtrees as before |
| `DirLocal.AddedDirTree` | retroshare/libretroshare/src/file_sharing/dir_hierarchy.cc:205-216 | a new subdirectory at the end of the slots and of the list keeps the tree |
| `DirLocal.AddedFileTree` | retroshare/libretroshare/src/file_sharing/dir_hierarchy.cc:356-359 | so does a new file |
| `DirLocal.DroppedFileTree` | retroshare/libretroshare/src/file_sharing/dir_hierarchy.cc:327-330 | so does a dropped file |
| `DirSubdirs.NamedOnlyIs` | retroshare/libretroshare/src/file_sharing/dir_hierarchy.cc:180-198 | the sweep that overwrites an unwanted entry with the last one leaves exactly the wanted ones, once each |
| `DirSubdirs.DropOneMore` | retroshare/libretroshare/src/file_sharing/dir_hierarchy.cc:180-187 | taking out one more subdirectory removes its subtree and its hashes and moves nothing else |
| `DirSubdirs.WithNewIs` | retroshare/libretroshare/src/file_sharing/dir_hierarchy.cc:200-217 | the new subdirectories stand in order at the end of the slots and of the list, empty, with their hashes |
| `DirSubdirs.ListingIs` | retroshare/libretroshare/src/file_sharing/dir_hierarchy.cc:167-220 | slot by slot: unwanted subtrees are gone, new directories at the end, every other node as it was, at any depth |
| `DirSubdirs.ListingNames` | retroshare/libretroshare/src/file_sharing/dir_hierarchy.cc:167-220 | the subdirectories then have exactly the given names |
| `DirSubdirs.NewDirectoryIs` | retroshare/libretroshare/src/file_sharing/dir_hierarchy.cc:199-217 | each new subdirectory is empty and has its name and the hash made of that name, the hash of its parent and the seed |
| `DirFiles.Drift` | retroshare/libretroshare/src/file_sharing/dir_hierarchy.cc:334-344 | after a list update the files exceed the counter by what the kept files are listed with beyond their former sizes |
| `DirFiles.HashKeptIff` | retroshare/libretroshare/src/file_sharing/dir_hierarchy.cc:325-367 | after the update a file has the listed size and time, and its old hash exactly when these are what they were |
| `DirFiles.CounterFollowsIff` | retroshare/libretroshare/src/file_sharing/dir_hierarchy.cc:334-344 | the counter equals the total size exactly when the kept files together are listed with their former sizes |
| `DirFiles.DriftExample` | retroshare/libretroshare/src/file_sharing/dir_hierarchy.cc:340-343 | one file grown from one byte to two: the counter stays at one |
| `DirCheck.TreeClean` | retroshare/libretroshare/src/file_sharing/dir_hierarchy.cc:863-938 | the check has nothing to repair in a well-formed tree |
| `DirCheck.CheckDone` | retroshare/libretroshare/src/file_sharing/dir_hierarchy.cc:879-935 | both passes make, slot by slot, the swept lists in their order, and leave exactly the root and the nodes something referred to |
| `DirCheck.SiftedIs` | retroshare/libretroshare/src/file_sharing/dir_hierarchy.cc:885-916 | the swap-and-pop sweep of a list keeps, once each, the slots that exist and were not reached before |
| `DirCheck.CheckedRefs` | retroshare/libretroshare/src/file_sharing/dir_hierarchy.cc:879-935 | a reference survives exactly when it leads to an existing slot other than the first, no earlier slot has it, and the node that holds it survives |
| `DirCheck.CheckedGood` | retroshare/libretroshare/src/file_sharing/dir_hierarchy.cc:879-935 | the surviving references are in range, non-zero and pairwise distinct |
| `DirCheck.CleanUnchanged` | retroshare/libretroshare/src/file_sharing/dir_hierarchy.cc:863-938 | clean slots are left as they are |
| `DirCheck.UnchangedIsClean` | retroshare/libretroshare/src/file_sharing/dir_hierarchy.cc:863-938 | slots left as they are were clean |
| `DirCheck.TreeIffClean` | retroshare/libretroshare/src/file_sharing/dir_hierarchy.cc:863-938 | slots are a tree exactly when they are clean, start with a directory, children are live, of the right kind and name their parent, and every live slot leads up to slot 0 |
| `DirCheck.CleanCycle` | retroshare/libretroshare/src/file_sharing/dir_hierarchy.cc:863-938 | two directories that list each other pass the check and are no part of a tree |
| `DirCheck.CleanMisfits` | retroshare/libretroshare/src/file_sharing/dir_hierarchy.cc:885-916 | a file among the subdirectories and a reference to an empty slot pass the check too |
| `DirCheck.CleanNextIff` | retroshare/libretroshare/src/file_sharing/dir_hierarchy.cc:918-935 | one check is enough exactly when no unreferenced node was the first to refer to a live one |
| `DirCheck.OrphansAgain` | retroshare/libretroshare/src/file_sharing/dir_hierarchy.cc:918-935 | a deleted directory leaves the one inside it as a new orphan |
| `DirCheck.CheckedLess` | retroshare/libretroshare/src/file_sharing/dir_hierarchy.cc:863-938 | a check that changes anything leaves strictly fewer live nodes and references, so repeated checks come to an end |
| `DirHierarchy.Hierarchy.constructor` | retroshare/libretroshare/src/file_sharing/dir_hierarchy.cc:60-74 | one empty root directory under the null hash, counters zero |
| `DirHierarchy.Hierarchy.DeleteNode` | retroshare/libretroshare/src/file_sharing/dir_hierarchy.cc:438-446 | an occupied slot is emptied and put on the free list; an empty one is left |
| `DirHierarchy.Hierarchy.DeleteFileNode` | retroshare/libretroshare/src/file_sharing/dir_hierarchy.cc:416-437 | the same, and the counters follow; the guards never skip while the counters are right |
| `DirHierarchy.Hierarchy.AllocateNewIndex` | retroshare/libretroshare/src/file_sharing/dir_hierarchy.cc:448-461 | the first slot on the free list that is empty, and the list behind it; the store grows only when the list leads to none |
| `DirHierarchy.Hierarchy.UpdateFile` | retroshare/libretroshare/src/file_sharing/dir_hierarchy.cc:387-414 | a file gets its new contents, the size counter follows, and hash and tree are kept up |
| `DirHierarchy.Hierarchy.RecursRemoveDirectory` | retroshare/libretroshare/src/file_sharing/dir_hierarchy.cc:1021-1038 | exactly the slots of the subtree are emptied and freed, its directories' hashes erased; it ends because a tree has no cycle |
| `DirHierarchy.Hierarchy.RemoveDirectory` | retroshare/libretroshare/src/file_sharing/dir_hierarchy.cc:251-286 | false and no change for anything but a directory other than the root; else the subtree goes and the parent loses one reference |
| `DirHierarchy.Hierarchy.PlaceSubdirs` | retroshare/libretroshare/src/file_sharing/dir_hierarchy.cc:494-534 | per hash the old subdirectory of that hash, once, or a new one in an empty slot, and the hash leads to it; nothing else changes |
| `DirHierarchy.Hierarchy.RemoveRest` | retroshare/libretroshare/src/file_sharing/dir_hierarchy.cc:537-549 | the subtrees of the old subdirectories that were not asked for go, and the hashes of all directories in them are erased |
| `DirHierarchy.Hierarchy.PlaceFiles` | retroshare/libretroshare/src/file_sharing/dir_hierarchy.cc:560-598 | per given file the old one of that name, once, rewritten, or a new one; the counters and the file hashes follow |
| `DirHierarchy.Hierarchy.RemoveRestFiles` | retroshare/libretroshare/src/file_sharing/dir_hierarchy.cc:601-613 | the old files that were not given again go |
| `DirHierarchy.Hierarchy.NumberChildren` | retroshare/libretroshare/src/file_sharing/dir_hierarchy.cc:617-629 | rows from 0, subdirectories first, and the parent link of every child |
| `DirHierarchy.Hierarchy.UpdateDirEntry` | retroshare/libretroshare/src/file_sharing/dir_hierarchy.cc:463-633 | the children are the given hashes and files in order, vanished ones went with their subtrees, all else is untouched; both hash indexes, at most one new slot a child; a tree and right counters are kept |
| `DirHierarchy.Hierarchy.UpdateCumulatedSize` | retroshare/libretroshare/src/file_sharing/dir_hierarchy.cc:673-688 | every directory below caches the size below it; from the root the result is the size counter |
| `DirHierarchy.Hierarchy.RecursUpdateCumulatedSize` | retroshare/libretroshare/src/file_sharing/dir_hierarchy.cc:673-688 | the recursion returns and caches the sums modulo 2^64 |
| `DirHierarchy.Hierarchy.UpdateLastModfTime` | retroshare/libretroshare/src/file_sharing/dir_hierarchy.cc:691-724 | the flag holds exactly if some file below is unhashed; the time keeps within the bounds above |
| `DirHierarchy.Hierarchy.RecursUpdateLastModfTime` | retroshare/libretroshare/src/file_sharing/dir_hierarchy.cc:691-724 | the recursion returns and caches the specified time of each directory below |
| `DirHierarchy.Hierarchy.GetChildIndex` | retroshare/libretroshare/src/file_sharing/dir_hierarchy.cc:131-150 | the child in a row, subdirectories before files; nothing for a negative row |
| `DirHierarchy.Hierarchy.GetIndexFromDirHash` | retroshare/libretroshare/src/file_sharing/dir_hierarchy.cc:87-107 | a found index is a live directory of that hash; a stale entry, and only it, is erased |
| `DirHierarchy.Hierarchy.GetIndexFromFileHash` | retroshare/libretroshare/src/file_sharing/dir_hierarchy.cc:109-129 | the same for files |
| `DirHierarchy.Hierarchy.DropUnlisted` | retroshare/libretroshare/src/file_sharing/dir_hierarchy.cc:180-198 | the subtrees of subdirectories with other names go with their hashes; the names without a directory are returned |
| `DirHierarchy.Hierarchy.AddMissing` | retroshare/libretroshare/src/file_sharing/dir_hierarchy.cc:200-217 | one new empty directory for each missing name, at the end, under its hash |
| `DirHierarchy.Hierarchy.UpdateSubDirectoryList` | retroshare/libretroshare/src/file_sharing/dir_hierarchy.cc:167-220 | the whole new slots and directory hashes: exactly the given names, unwanted subtrees gone, new directories at the end, nothing else changed |
| `DirHierarchy.Hierarchy.UpdateSubFilesList` | retroshare/libretroshare/src/file_sharing/dir_hierarchy.cc:299-365 | the files are exactly the listed ones with listed sizes and times, one new slot for each new name; the counter stands for the kept files' former sizes |
| `DirHierarchy.Hierarchy.SweepChildren` | retroshare/libretroshare/src/file_sharing/dir_hierarchy.cc:885-904 | one list swept in place: its exact new order, once each the slots that exist and were not reached before |
| `DirHierarchy.Hierarchy.Check` | retroshare/libretroshare/src/file_sharing/dir_hierarchy.cc:863-938 | from any slots: the exact new slots, free list exact; true exactly when nothing changed, which is exactly when the slots were clean; clean afterwards exactly when no unreferenced node was the first to refer to a live one |
| `DirRuns.Perform` | retroshare/libretroshare/src/file_sharing/dir_hierarchy.cc:463-633 | one admissible update, file change or removal does what it should and keeps the tree, distinct siblings and right counters |
| `DirRuns.Replay` | retroshare/libretroshare/src/file_sharing/dir_hierarchy.cc:387-633 | every sequence of updates, file changes and removals from the empty store: a tree with distinct siblings after each, and counters equal to number and size of the live files; all are performed when names are given once and kept and slots and sizes fit |
| `DirRuns.ReplayAndSum` | retroshare/libretroshare/src/file_sharing/dir_hierarchy.cc:673-688 | after any such run the sizes summed up from the root are the size counter |
| `DirRuns.ErasedHash` | retroshare/libretroshare/src/file_sharing/dir_hierarchy.cc:494-549 | from the empty store, a directory whose hash moves up out of a vanished one: listed by the root, and not found by its hash |
| `DirRuns.RepeatedHash` | retroshare/libretroshare/src/file_sharing/dir_hierarchy.cc:487-549 | from the empty store, one hash given twice and then none: no tree is left |
| `DirRuns.RepeatedName` | retroshare/libretroshare/src/file_sharing/dir_hierarchy.cc:553-613 | the same with a file name |
| `ConnectStateBox.NoRequestWhileOneIsOut` | retroshare/libretroshare/src/dht/connectstatebox.cc:357-716 | between two requests of any run there is news that ended the first attempt |
| `ConnectStateBox.RequestIffEntered` | retroshare/libretroshare/src/dht/connectstatebox.cc:357-716 | TCP is asked for exactly by a direct call that brings the box into the TCP wait, and each other request exactly when the box enters its attempt; a fresh start lasts 60 seconds and clears the counters |
| `ConnectStateBox.TcpFirst` | retroshare/libretroshare/src/dht/connectstatebox.cc:412-442 | in every run of direct calls and any news, with a monotone clock, each direct request comes at least 60 seconds after a request for TCP, with no failure and no connection between them |
| `ConnectStateBox.AgainIff` | retroshare/libretroshare/src/dht/connectstatebox.cc:424-703 | a box whose pause is over tries again in the same way exactly with fewer than 5, 10 or 5 attempts and fewer than 3 failures, and otherwise fails, or goes from proxies to relays |
| `ConnectStateBox.PauseIff` | retroshare/libretroshare/src/dht/connectstatebox.cc:880-945 | the pause takes every length from 0 to 59 seconds, for proxies from 30 to 119 |
| `ConnectStateBox.FailsIff` | retroshare/libretroshare/src/dht/connectstatebox.cc:445-982 | a box fails exactly by a direct or relay wait that is over and used up, by a denied authentication, or by a mode that is unavailable for a direct or relay attempt |
| `ConnectStateBox.ConnectedIff` | retroshare/libretroshare/src/dht/connectstatebox.cc:787-828 | a box is connected from the news of a connection to the news of its end, and asks for nothing in between |
| `ConnectStateBox.KindsOfNetwork` | retroshare/libretroshare/src/dht/connectstatebox.cc:262-291 | the net state of every combination of modes |
| `ConnectStateBox.ProxyPortIff` | retroshare/libretroshare/src/dht/connectstatebox.cc:293-300 | a proxy request uses the proxy port exactly when the network of its call is not open to the outside |
| `ConnectStateBox.OnlyOpenMatters` | retroshare/libretroshare/src/dht/connectstatebox.cc:262-716 | two runs whose networks are open at the same events take the same actions: a firewalled peer is treated like one behind any other translator |
| `ConnectStateBox.ReverseIffOpen` | retroshare/libretroshare/src/dht/connectstatebox.cc:949-974 | an unavailable proxy mode leads to five minutes of waiting for the peer exactly when the network of the last call was open, and else to relays |
| `ConnectStateBox.AttemptLength` | retroshare/libretroshare/src/dht/connectstatebox.cc:787-982 | the news that ends an attempt records the time since its request, except that a denied authentication records 0 |
| `ConnectStateBox.UsefulIff` | retroshare/libretroshare/src/dht/connectstatebox.cc:720-1014 | news is reported as of use exactly when it changes the state, connections and failures by an unavailable mode excepted |
| `ConnectStateBox.ProxyRequestsApart` | retroshare/libretroshare/src/dht/connectstatebox.cc:599-635 | with a monotone clock any two proxy requests are at least 30 seconds apart, whatever calls and news lie between |
| `ConnectStateBox.QuietAfterFailure` | retroshare/libretroshare/src/dht/connectstatebox.cc:524-537 | within half an hour of a failure nothing is requested unless the peer connects by itself |
| `ConnectStateBox.CountersStayBounded` | retroshare/libretroshare/src/dht/connectstatebox.cc:357-1014 | in every run at most 10 counted attempts and 3 counted failures |
| `ConnectStateBox.UnreachableRound` | retroshare/libretroshare/src/dht/connectstatebox.cc:489-716 | a round of unreachable calls and any news but of connection takes at most 11 proxy and 6 relay requests |
| `ConnectStateBox.DirectRound` | retroshare/libretroshare/src/dht/connectstatebox.cc:357-486 | a round of direct calls takes at most 6 direct requests |
| `ConnectStateBox.BoundsReached` | retroshare/libretroshare/src/dht/connectstatebox.cc:563-703 | a run that takes 11 proxy and 6 relay requests |
| `ConnectStateBox.UnreachableStep` | retroshare/libretroshare/src/dht/connectstatebox.cc:489-716 | every step pays for its request out of what is left before the next failure |
| `ConnectStateBox.DirectStep` | retroshare/libretroshare/src/dht/connectstatebox.cc:357-486 | the same for direct calls |
| `ConnectStateBox.PeerConnectStateBox.constructor` | retroshare/libretroshare/src/dht/connectstatebox.cc:79-95 | the initial box |
| `ConnectStateBox.PeerConnectStateBox.ConnectCb` | retroshare/libretroshare/src/dht/connectstatebox.cc:315-354 | net state from the modes, then the direct or the unreachable step |
| `ConnectStateBox.PeerConnectStateBox.ConnectDirect` | retroshare/libretroshare/src/dht/connectstatebox.cc:357-486 | the direct step, fall-throughs included |
| `ConnectStateBox.PeerConnectStateBox.ConnectUnreachable` | retroshare/libretroshare/src/dht/connectstatebox.cc:489-716 | the unreachable step; the comparison in line 574 always leads to a proxy |
| `ConnectStateBox.PeerConnectStateBox.UpdateCb` | retroshare/libretroshare/src/dht/connectstatebox.cc:720-1014 | the update step for every news and random number |
| `Lobby.LimiterBound` | retroshare/libretroshare/src/chat/distributedchat.cc:355-416 | of any arrivals no closed ten-second window sees more than the cap and one accepted |
| `Lobby.FullIsAboveCap` | retroshare/libretroshare/src/chat/distributedchat.cc:388-411 | a log is full exactly when it is longer than the rounded-down cap |
| `Lobby.CleanedLog` | retroshare/libretroshare/src/chat/distributedchat.cc:404-405 | the pop loop leaves exactly the times of the last ten seconds of the history |
| `Lobby.PassedOnOnce` | retroshare/libretroshare/src/chat/distributedchat.cc:863-935 | in every run of a subscribed lobby a message sent at most 100 seconds ahead of the clock at its first acceptance is never accepted again |
| `Lobby.Echo` | retroshare/libretroshare/src/chat/distributedchat.cc:122-137 | a message from further ahead is accepted and sent again just after it is forgotten |
| `Lobby.PassedOnTwiceIffAhead` | retroshare/libretroshare/src/chat/distributedchat.cc:122-137 | some run passes a message on twice exactly when it was sent more than 100 seconds ahead |
| `LobbyRuns.KeptOut` | retroshare/libretroshare/src/chat/distributedchat.cc:122-151 | an item that is not trusted, or was sent more than 1100 seconds ago or 600 ahead, leaves the whole service as it was |
| `LobbyRuns.KnownIff` | retroshare/libretroshare/src/chat/distributedchat.cc:863-935 | in every run a message not known at first is cached exactly when it was posted or came in, trusted and in time, and no sweep came more than 1200 seconds after the last time it did; the same for active identities and 180 seconds |
| `LobbyRuns.FriendIff` | retroshare/libretroshare/src/chat/distributedchat.cc:889-890 | the friends of a lobby are those it began with and everyone an item was let in from |
| `LobbyRuns.PassedOnIff` | retroshare/libretroshare/src/chat/distributedchat.cc:863-935 | in every run an item is passed on exactly when it is let in to a subscribed lobby, is not cached, and in the last ten seconds at most ten items of its sender were passed on there, or at most five for every six participants |
| `LobbyRuns.SentToIff` | retroshare/libretroshare/src/chat/distributedchat.cc:919-930 | it goes to exactly the connected friends of the lobby but its sender |
| `LobbyRuns.ActivityStep` | retroshare/libretroshare/src/chat/distributedchat.cc:863-935 | a lobby was last active when a message new to it came in, and counts what it passed on |
| `Lobby.DistributedChatService.HandleRecvChatLobbyItem` | retroshare/libretroshare/src/chat/distributedchat.cc:111-137 | age limits 1100 seconds back and 600 ahead, then bounce |
| `Lobby.DistributedChatService.BounceLobbyObject` | retroshare/libretroshare/src/chat/distributedchat.cc:863-935 | the sender becomes a friend; a known message is renewed and dropped; a new one is cached even when the limiter drops it, and sent on to connected friends but the sender |
| `Lobby.DistributedChatService.BouncingObjectCheck` | retroshare/libretroshare/src/chat/distributedchat.cc:355-416 | old times leave the log; the item passes unless the log is over the cap |
| `Lobby.DistributedChatService.Forward` | retroshare/libretroshare/src/chat/distributedchat.cc:919-930 | exactly the connected friends other than the sender |
| `Lobby.DistributedChatService.CleanLobbyCaches` | retroshare/libretroshare/src/chat/distributedchat.cc:1905-1958 | messages older than 1200 seconds and identities older than 180 are forgotten in every lobby |
| `LobbyNetwork.EveryRunSendsOnce` | retroshare/libretroshare/src/chat/distributedchat.cc:122-137 | in every run of every network, with caches cleared on the way and clocks that do not run backwards: if every clock that first took the message in was at most 100 seconds behind the sender, each node sends it at most once to each peer, only to friends, never back to the peer it came from |
| `LobbyNetwork.StepSendsOnce` | retroshare/libretroshare/src/chat/distributedchat.cc:863-935 | each delivery, loss and clearing of a cache keeps that |
| `LobbyNetwork.CleanOnce` | retroshare/libretroshare/src/chat/distributedchat.cc:1925-1938 | what a node clears from its cache is older than any copy it would take in again |
| `LobbyNetwork.InAgeNoEcho` | retroshare/libretroshare/src/chat/distributedchat.cc:122-137 | a copy young enough to be let in finds the message still cached, or never had |
| `LobbyNetwork.BounceOnce` | retroshare/libretroshare/src/chat/distributedchat.cc:863-935 | one bounce keeps each link used at most once |
| `LobbyNetwork.FinitelyManySends` | retroshare/libretroshare/src/chat/distributedchat.cc:863-935 | no more copies are ever sent than pairs of a node and a peer |
| `LobbyNetwork.EveryFriendHadIt` | retroshare/libretroshare/src/chat/distributedchat.cc:863-935 | when nothing was dropped and nothing is under way, the nodes that took the message in are closed under connected friends |
| `LobbyNetwork.ReachesChain` | retroshare/libretroshare/src/chat/distributedchat.cc:863-935 | everyone at the end of a chain of connected friends from the poster then took it in |
| `LobbyNetwork.SpreadStep` | retroshare/libretroshare/src/chat/distributedchat.cc:863-935 | one move keeps it so that friends of a node that took the message in took it in too or have it coming |

## Left out

- The branches of the ciphers that call OpenSSL, HMAC-SHA256 itself (a parameter that gives 16 bytes),
  and the timing of the tag comparison, which is modelled as equality.
- `uint256_32::operator==`, the one-bit `lshift()`, printing and the self-check of the cipher file.
- Failure of `malloc` within the allowed sizes.
- RsCrypto.DecryptAuthenticateData: what happens to a buffer that wraps, since the code then works
  outside it; these are exactly the buffers of `RsCrypto.DecryptStaysInside`.
- RsCrypto.EncryptAuthenticateData: what happens from 2^32 - 35 bytes on, for the same reason.
- UInt256Limbs.Quotient: asks for the top bit of n at or above that of p, without which the code
  indexes outside its limbs.
- Nodes are values in their slots: a slot owns its node and no two slots share one, so pointers into
  nodes are not modelled. Objects of the limb arithmetic, the key store's records and buffers are
  modelled by reference.
- That every live file is found under its hash: files with one hash share one entry by design.
- Saving, loading, compressing, printing and searching the hierarchy, its parent paths, the deep file
  index, and `updateHash`, `getTS`, `setTS`, which read or set one field.
- DirHierarchy.Hierarchy.UpdateDirEntry: asks for slot numbers below the reserved one; its counters are
  right when old and new files together fit 64 and 32 bits, and may wrap otherwise.
- DirHierarchy.Hierarchy.GetChildIndex: for a negative row, asks that the lists are not longer than the
  number it is cast to; otherwise the code indexes its lists with the negative number.
- Lobby.DistributedChatService.HandleRecvChatLobbyItem: lobby events make the same checks in another
  order; rejected items change nothing, so one step stands for both. What an event then does to the
  lobby's identities (joining, leaving, renaming) is not modelled.
- The order in which maps and sets are walked (vanished children, missing names) is left open; it
  shows only in the order of the free list and of new slots. A new slot is any the list leads to.
- SHA-1 of directory names is a parameter of `UpdateSubDirectoryList`.
- Signatures, identities, reputation, invitations, visible-lobby bookkeeping, keep-alive and challenge
  packets of the chat code. Receiving is one step with one clock reading.
- The limiter's bound is compared exactly instead of in single precision; its product of ten and the
  number of participants does not wrap.
- Lobby.LimiterBound: for a fixed number of participants.
- In the network, whether the limiter lets a copy through is left free, and friends join only by sending
  the message.
- States and net states of the connection box that have no name, the stored proxy port choice, and
  text output.
- Writing packets to the core happens after the store's lock is released; the order of such writes is
  not modelled. The timers themselves are not fields: any may fire at any time.
- Prefix checks of addresses, network devices, multicast, administration and the rest of both programs.
