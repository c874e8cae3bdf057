# OpenDDNS server: a verified model

OpenDDNS is a small DNS server. Domains are registered at a console with a four-byte token, clients
bind an address to a token over TCP, and DNS queries over UDP are answered from what was registered
and bound. Links between domains and tokens are kept in append-only files that are replayed at start.

This project models the four pieces behind that, each in the form the C code has, and proves what they
compute, separately and together, from request bytes to reply bytes and over whole runs:

* **The hash map** (`HashMaps`, `Tables`, `Murmur`, `HashValues`, `Bits`). Classes with an array of singly linked, key-sorted
  chains; puts splice nodes in place and rehashing moves the same nodes by putting them again. `Valid()`
  says that the chains spell out a table value; `Tables` proves what such tables mean. The table is
  generic in its comparison, as the source is, and also in its hash, which `DnsMaps` instantiates with
  MurmurHash3 and `strcmp`. Words are numbers below 2^32; `Bits` defines the bitwise operators and shifts
  digit by digit and proves what they are as quotients and remainders. `Murmur.CalculateHash` is the loop
  over the key; `HashValues` gives its steps as arithmetic, and the hashes of three keys.
* **The codec** (`Messages`, `Wire`, `Codec`). A cursor that yields zeros after the last byte while the
  remaining size goes negative, and a writer into a buffer sized in advance. `Wire` holds the format of
  sections 4.1.1 to 4.1.3 of RFC 1035 as functions and the theorems about both directions; the methods
  of `Codec` compute these functions, with the shifts and masks of the source. Bytes popped together are
  taken left to right.
* **The persistent map** (`Logs`, `DnsStates`, `DnsMaps`, `Traces`). Three hash maps and two files; a
  file is a byte string with a read position. `DnsStates` is the abstract state, the steps of the threads
  on it, and what survives a restart or a crash; `Traces` tells from the steps of a run alone what is
  registered and bound, and leaves open which addresses the map holds. Strings in memory are C strings:
  bytes without NUL, shorter than 2^31.
* **Replies** (`Names`, `Answers`, `Protocol`, `Replies`, `Server`). The keys names are looked up under,
  the reply to a message, the response code, the size and the end-to-end theorem, and the steps of the three threads,
  each taken as atomic.

Each method is tied to a function of its inputs or of the old state, and the lemmas are about those
functions. `Protocol` says what a reply has to be without mentioning how replies are built, with every
code, type, bit and time as a number, and `Replies.ReplyIs` shows that the reply built is that one. `hide` statements keep definitions out of proofs that do not need them.

## Where code and comments differ

* `src/server/c/dns/answer.c:15` promises null for an invalid question. The code always builds a reply,
  with a response code, and for a header error it keeps all answers.
* `src/server/c/dns/codec.c:41` describes the error flag as "no ip address found". The code raises it
  when the buffer was too short.
* Label counts are kept in 16 bits (`src/server/c/dns/codec.c:34`), so parsing is not injective on every
  buffer: `Wire.TooManyLabels` is an accepted buffer that is not printed back, and `Wire.ParseThenPrint`
  gives the exact condition. Buffers below 128 KiB always meet it (`Wire.SmallBuffersFit`). The reply
  theorems need no such bound, because whatever was parsed can be printed (`Wire.ParsedPrintable`).
* Names are C strings made of labels and dots, so that different names can share a key: `Names.SharedKey`
  says exactly which. `Names.DotsCollide` and `Names.NulsCollide` are examples, and names of labels
  without dots and NUL bytes never do (`Names.PlainNamesDiffer`).
* Bindings are put without the update flag (`src/server/c/threads/binding_thread.c:133`), so that the
  address log stays empty and a restart forgets every address (`Server.RestartForgetsAddresses`).

## What callers must provide

* A question for IN A or ANY has a label: for the root, `labels_to_domain` writes in front of its buffer
  (`src/server/c/dns/answer.c:149`). The model asks for this in `Protocol.CanBuild`, and
  `Replies.HandledUnlessRoot` shows that parsed messages lack nothing else. Datagrams that lack it exist:
  17 bytes are enough (`Replies.RootNotHandled`).
* A message with a header error has no unresolved IN A or ANY question: its answers would be printed from
  a null or unset pointer (`src/server/c/dns/answer.c:50`, `src/server/c/dns/answer.c:161`).
  `Replies.ReplyPrintable` shows that this (`Protocol.CanPrint`) is exactly when a reply can be printed, and
  `Replies.UnresolvedNotSendable` that any name of one label that does not resolve gives a datagram, of 19
  bytes for a name of one byte, that meets the first condition and not this one.
* Sizes stay in range. Tables have fewer than 2^31 buckets (`HashMaps.HashMap.Fits`): that holds of any
  map of fewer than 0x28000000 keys, and `Roomy` asks for no more when logs are replayed. Printed messages
  have fewer than 2^32 bytes: that holds of the reply to any buffer below 1 GiB (`Replies.ReplyIsSmall`),
  and the server's buffer has 512 bytes.

## Model

| member | source | states |
|---|---|---|
| Murmur.CalculateHash | src/server/c/map/hash_map.c:257-304 | The block loop counting up from -nblocks, the fall-through tail and the final mix compute the hash of the key, reduced modulo the table size |
| Murmur.HashBody | src/server/c/map/hash_map.c:268-282 | After the block loop, `h1` has taken in every whole block in order |
| Murmur.HashTail | src/server/c/map/hash_map.c:285-295 | The switch takes in the one to three remaining bytes, and nothing when there are none |
| Murmur.HashSeparates | src/server/c/map/hash_map.c:257-302 | For every length, two keys that differ only within one aligned block, or only within the tail, have different hashes before the reduction |
| Murmur.Fmix32Injective | src/server/c/map/hash_map.c:246-255 | The final mix maps different words to different words |
| Murmur.RotatedFits | src/server/c/map/hash_map.c:241-244 | The two shifted words or-ed together hold the lower 32 - r digits r places higher and the upper r digits at the bottom |
| Murmur.Rotl32Injective | src/server/c/map/hash_map.c:241-244 | Rotating loses nothing, for every distance |
| Murmur.MixBlockInjective | src/server/c/map/hash_map.c:272-280 | A block step loses nothing of the running hash for a fixed block, nor of the block for a fixed hash |
| Murmur.TailWordInjective | src/server/c/map/hash_map.c:286-293 | Different tails of one length assemble to different words |
| HashValues.BlockStep | src/server/c/map/hash_map.c:241-280 | The hash starts as 59, and a block changes it by a product, a rotation by 15, a product, an exclusive or, a rotation by 13, and times 5 plus 0xe6546b64, each written as arithmetic modulo 2^32 |
| HashValues.LastSteps | src/server/c/map/hash_map.c:246-302 | The rest, the length and the final mix, likewise |
| HashValues.XorWords | src/server/c/map/hash_map.c:248-254 | Exclusive or works on each binary digit of two words |
| HashValues.HashOfNothing | src/server/c/map/hash_map.c:257-302 | The hash of the empty key is 0x21727956 |
| HashValues.HashOfAbcd | src/server/c/map/hash_map.c:257-302 | The hash of "abcd" is 0xf199a74b |
| HashValues.HashOfName | src/server/c/map/hash_map.c:257-302 | The hash of "www.example.com" is 0xa4f670b4 |
| Tables.RunsRefineAMap | src/server/c/map/hash_map.c:29-121 | After any run of puts on a new table, rehashes included, a get returns what the last put of its key gave, or nothing; the size is 10 times a power of two, at most half and, once grown, at least a quarter of it is used, and size / 2 - 5 <= 2 * nentries nodes were ever relocated |
| Tables.PutRefines | src/server/c/map/hash_map.c:35-104 | A put keeps chains sorted, in their buckets and counted, and changes what the table says about its key alone |
| Tables.PutContents | src/server/c/map/hash_map.c:29-104 | On the map a table stands for, a put is a map update |
| Tables.PutGrowth | src/server/c/map/hash_map.c:38-40 | A put keeps the growth invariant: size, load and number of relocations |
| Tables.RehashConserves | src/server/c/map/hash_map.c:198-222 | Rehashing keeps every lookup and `nentries`, relocates each entry exactly once, and leaves room |
| Tables.RehashNeverNests | src/server/c/map/hash_map.c:207-219 | Each put inside a rehash finds the new table below its load limit, so that it does not rehash in turn, and without its key |
| Tables.HistoryIndependent | src/server/c/map/hash_map.c:54-103 | Two tables of one size with the same contents have identical chains, whatever was put when |
| Tables.OrderIrrelevant | src/server/c/map/hash_map.c:35-104 | Two runs of puts of the same entries with different keys, in any order, build equal tables: size, chains and relocations |
| Tables.OverwritingGrows | src/server/c/map/hash_map.c:38-40 | Without different keys they need not: putting an entry again keeps the contents, but doubles the table exactly if it is full, as it is after five keys |
| Tables.DistinctPutsSize | src/server/c/map/hash_map.c:38-40 | After n puts of different keys there are n entries, and the size depends on n alone |
| Tables.KeysOnce | src/server/c/map/hash_map.c:54-103 | No key occurs twice in a table |
| Tables.ContentsSize | src/server/c/map/hash_map.c:66-102 | `nentries` is the number of keys of the map |
| Tables.FewEntriesFit | src/server/c/map/hash_map.c:38-40 | A full table of fewer than 0x28000000 entries can be doubled within a C int |
| Tables.GetIs | src/server/c/map/hash_map.c:106-121 | A get finds a value exactly when some entry anywhere in the table pairs it with the key |
| HashMaps.HashMap.constructor | src/server/c/map/hash_map.c:20-27 | A new map is valid and stands for the empty table of ten buckets |
| HashMaps.HashMap.Init | src/server/c/map/hash_map.c:178-185 | A fresh array of empty buckets, no nodes and no entries |
| HashMaps.HashMap.PutEntry | src/server/c/map/hash_map.c:35-104 | The chains spell out the table after the put, rehashed first if it was full; the result is the old value or nothing; exactly a new key brings in its node |
| HashMaps.HashMap.AddBehind | src/server/c/map/hash_map.c:73-102 | The loop inserts before the first larger key or at the end, or overwrites an equal one |
| HashMaps.HashMap.LinkFirst | src/server/c/map/hash_map.c:44-64 | The entry becomes the head of its chain and every other node stays |
| HashMaps.Splice | src/server/c/map/hash_map.c:81-82 | Two pointer writes put an entry between two nodes of a chain of distinct nodes |
| HashMaps.HashMap.LinkAfter | src/server/c/map/hash_map.c:80-85 | Two pointer writes put the entry between two nodes of its chain, and every other chain is untouched |
| HashMaps.HashMap.Overwrite | src/server/c/map/hash_map.c:86-92 | Only the value of the node with the equal key changes |
| HashMaps.HashMap.Rehash | src/server/c/map/hash_map.c:198-222 | The doubled table holds the same node objects, and what they spell is the rehashed table |
| HashMaps.HashMap.MoveChain | src/server/c/map/hash_map.c:208-219 | The nodes of one old bucket, and no others, join the new table |
| HashMaps.HashMap.Put | src/server/c/map/hash_map.c:29-33 | The map is updated at the key; the previous value or nothing is returned; growth is kept |
| HashMaps.HashMap.SmallFits | src/server/c/map/hash_map.c:38-40 | A map of fewer than 0x28000000 keys can be put into without its size leaving the range of a C int |
| HashMaps.HashMap.Lookup | src/server/c/map/hash_map.c:106-121 | The value the map has for the key, or nothing |
| HashMaps.HashMap.AllApart | src/server/c/map/hash_map.h:4-16 | In a valid map, different chains share no node |
| HashMaps.SpellingNodesDiffer | src/server/c/map/hash_map.c:77-103 | The nodes of one chain are distinct, so that chains have no cycles |
| HashMaps.HashMap.EntryPlace | src/server/c/map/hash_map.c:42-104 | An entry of the map is in the bucket that its hash modulo the size gives, and nowhere else, and each bucket is in key order |
| HashMaps.HashMap.GetIterator | src/server/c/map/hash_map.c:123-154 | From null to the first entry, from each entry to the next in bucket order, and to null exactly after the last |
| HashMaps.HashMap.FirstFrom | src/server/c/map/hash_map.c:139-153 | The search stops at the head of the next bucket in use, or finds none when all entries are behind it |
| HashMaps.ListEntries | src/server/c/threads/console_thread.c:81-85 | The iterator loop terminates and yields the concatenation of the chains: every entry of the map once, `nentries` in all |
| Wire.PrintThenParse | src/server/c/dns/codec.c:134-274 | A printable message is parsed back from its encoding, using up exactly its bytes, if and only if none of its labels is empty |
| Wire.ParseThenPrint | src/server/c/dns/codec.c:14-97 | For an accepted buffer, printing the parsed message gives back the consumed bytes if and only if every label list fits its 16-bit count |
| Wire.TooManyLabels | src/server/c/dns/codec.c:34 | Some accepted buffer is not printed back: 65536 labels are counted as none |
| Wire.SmallBuffersFit | src/server/c/dns/codec.c:20-34 | Below 128 KiB every accepted buffer is printed back, and its message is printable without empty labels |
| Wire.ParsedPrintable | src/server/c/dns/codec.c:43-72 | Whatever the buffer, the parsed message has matching counts and no empty label, and is printed in at most the bytes demanded |
| Wire.Reprinted | src/server/c/dns/codec.c:43-158 | For every buffer, accepted or not, printing the parsed message and parsing it again gives the same message |
| Wire.HeaderBytes | src/server/c/dns/codec.c:139-145 | The twelve bytes of a header: six words in order, upper byte first |
| Wire.QuestionBytes | src/server/c/dns/codec.c:147-151 | The bytes of a question: each label behind its length, a null byte, type, class |
| Wire.RRBytes | src/server/c/dns/codec.c:261-274 | The bytes of a record: name, type, class, time to live, size, data |
| Wire.SectionBytes | src/server/c/dns/codec.c:139-157 | The sections follow one another in order |
| Wire.ReplyBytesWritten | src/server/c/dns/codec.c:134-158 | All 42 bytes of one reply |
| Wire.PrefixFree | src/server/c/dns/codec.c:43-72 | A buffer that starts with the bytes consumed from an accepted one parses to the same message and demand |
| Wire.Canonical | src/server/c/dns/codec.c:43-72 | Two accepted buffers with the same message consumed the same bytes |
| Wire.ParseExtends | src/server/c/dns/codec.c:103-110 | Parsing depends on the buffer only as extended by zeros without end |
| Wire.PaddingIsInvisible | src/server/c/dns/codec.c:103-110 | Appending zeros changes neither the message nor the number of bytes demanded |
| Wire.BoundedOvershoot | src/server/c/dns/codec.c:14-110 | On every buffer the bytes demanded exceed the size by at most 65535 + 12 + 5 per question + 11 per record |
| Codec.Cursor.PopInt8 | src/server/c/dns/codec.c:103-110 | The next byte, or zero at and after the end, while the demand goes on counting |
| Codec.Cursor.PopInt16 | src/server/c/dns/codec.c:116-118 | Two bytes, the first one more significant |
| Codec.Cursor.PopInt32 | src/server/c/dns/codec.c:124-126 | Four bytes, the first one most significant |
| Codec.Writer.AppendInt16 | src/server/c/dns/codec.c:227-230 | The upper byte by shifting, then the lower one by masking |
| Codec.Writer.AppendInt32 | src/server/c/dns/codec.c:235-238 | The upper half by shifting, then the lower one by masking |
| Codec.InterpretLabels | src/server/c/dns/codec.c:14-37 | The labels in front of the next null byte, cut to their count modulo 2^16 |
| Codec.InterpretRRs | src/server/c/dns/codec.c:79-97 | The given number of records, each after the bytes of the one before |
| Codec.InterpretQuestion | src/server/c/dns/codec.c:43-72 | Terminates on every buffer without reading past its end; the flag is raised exactly when more bytes were demanded than there are |
| Codec.CalcLabelsSize | src/server/c/dns/codec.c:163-173 | The number of bytes the labels are printed as |
| Codec.CalcRRsSize | src/server/c/dns/codec.c:201-215 | The number of bytes the records are printed as |
| Codec.CalcMessageSize | src/server/c/dns/codec.c:180-196 | The number of bytes the message is printed as |
| Codec.Writer.AppendLabels | src/server/c/dns/codec.c:243-256 | Appends length-prefixed labels and a null byte behind what was written |
| Codec.Writer.AppendRRs | src/server/c/dns/codec.c:261-274 | Appends every record behind what was written, inside the buffer |
| Codec.SerializeMessage | src/server/c/dns/codec.c:134-158 | Every append is in bounds and the whole buffer of the precomputed size ends up as the encoding, whatever it held before |
| Logs.StringWritten | src/server/c/map/dns_map.c:9-35 | `read_string` finds what `write_string` wrote, and stops behind it |
| Logs.LengthBytes | src/server/c/map/dns_map.c:9-35 | A string is written behind its length in four bytes, least significant first, and lengths are read as signed |
| Logs.EntryBytes | src/server/c/map/dns_map.c:70-108 | An entry is the domain and the token, or the token and the four bytes of the address |
| Logs.EntryWritten | src/server/c/map/dns_map.c:70-79 | All 13 bytes of the entry that links "a" to "abcd" |
| Logs.DomainFormatGood | src/server/c/map/dns_map.c:52-79 | Domain entries are read as written, reading makes progress, and torn entries are rejected |
| Logs.IpFormatGood | src/server/c/map/dns_map.c:81-108 | The same for address entries |
| Logs.CrashPrefix | src/server/c/map/dns_map.c:110-126 | Replaying the first n bytes of a log restores exactly the entries that lie in them as a whole, in order |
| Logs.LogsAreSane | src/server/c/map/dns_map.c:9-23 | Replaying a written log, whole or cut off anywhere, never finds a negative length |
| Logs.WholeEntries | src/server/c/map/dns_map.c:110-126 | The number of entries that fit within n bytes, and that one more would not |
| DnsStates.RestartKeepsSaved | src/server/c/map/dns_map.c:110-182 | After any interleaving of puts, creating the map from its logs gives the state as if the puts without the update flag had never been made |
| DnsStates.FullRecovery | src/server/c/map/dns_map.c:110-182 | If every put had the flag, both maps and the token set come back equal to the live ones |
| DnsStates.CrashRecovery | src/server/c/map/dns_map.c:9-142 | With both logs cut off anywhere, the state comes back as if only the surviving whole entries had been put |
| DnsStates.CrashedRun | src/server/c/map/dns_map.c:9-142 | With the domain log of any run cut off anywhere, the server comes back as after the first k steps of that run and a clean restart, for some k |
| DnsStates.RunSize | src/server/c/threads/console_thread.c:62-71 | A run logs at most one entry a step |
| DnsStates.RunConsistent | src/server/c/map/dns_map.c:110-186 | Over every run of registrations, bindings, queries and clean restarts: the log agrees with the map and names each domain once, tokens come from registrations alone, and only known tokens have addresses |
| DnsStates.TokensAreForever | src/server/c/threads/console_thread.c:62-71 | A registered domain keeps its token through everything that follows, restarts included |
| DnsStates.KnownTokens | src/server/c/map/dns_map.c:160-186 | `dns_map_has_token` accepts exactly the tokens of registered domains, and so every token that has an address |
| DnsStates.LogNamesDomainsOnce | src/server/c/threads/console_thread.c:62-71 | In any run each domain occurs at most once in the log, which holds exactly the registered domains |
| DnsStates.RunsWriteSaneLogs | src/server/c/map/dns_map.c:9-35 | The domain log of any run, cut off anywhere, is replayed without finding a negative length |
| DnsStates.DoLinks | src/server/c/threads/console_thread.c:62-71 | In a consistent state, a step links exactly a domain it registers that was not registered, and changes no other link |
| DnsStates.RegisterLinks | src/server/c/threads/console_thread.c:56-71 | After any run, registering an unregistered domain links it to the first four bytes of the argument, adds that token alone, and binds nothing |
| DnsStates.BindGives | src/server/c/threads/binding_thread.c:96-133 | After any run, a packet of four bytes binds exactly the token in front of its first NUL byte, if it is known, and otherwise changes nothing |
| DnsStates.RegisterAndBind | src/server/c/threads/binding_thread.c:104-133 | After any run, registering an unregistered domain with at least four bytes and presenting the first four gives it an address |
| DnsStates.BindAddsNoToken | src/server/c/threads/binding_thread.c:113-133 | A binding adds no token, and takes effect exactly for tokens of registered domains |
| Traces.RegisteredIs | src/server/c/threads/console_thread.c:62-71 | After any run, a domain is registered exactly when some step registers it |
| Traces.LinkedIs | src/server/c/threads/console_thread.c:62-71 | ... and its token is the first four bytes of the argument of the first step that does |
| Traces.IssuedIs | src/server/c/map/dns_map.c:172-186 | After any run, `dns_map_has_token` accepts exactly the tokens that some domain was first registered with |
| Traces.BoundIs | src/server/c/threads/binding_thread.c:100-133 | After any run, a token has an address exactly when a four-byte packet presented it after it had been issued, with no restart since |
| Traces.AvailableIs | src/server/c/dns/answer.c:159-177 | After any run, a domain has an address exactly when the token it was first registered with is bound in that sense |
| Traces.AfterOneMore | src/server/c/threads/binding_thread.c:133 | Whatever the addresses the map holds after a run, after one more step it is again what the run says, up to addresses |
| DnsMaps.StringsOrdered | src/server/c/map/dns_map.c:5-7 | Comparing strings is a strict order in which only equal strings compare as zero |
| DnsMaps.StrCmpIs | src/server/c/map/dns_map.c:5-7 | A string compares as less exactly if the other continues it or has the larger byte where they first differ |
| DnsMaps.DnsMap.DomainPlace | src/server/c/map/dns_map.c:128-150 | A registered domain is in the bucket its MurmurHash3 gives, and buckets are in the order of `strcmp` |
| DnsMaps.ReadStringFrom | src/server/c/map/dns_map.c:9-23 | Reads a length and that many bytes, or fails |
| DnsMaps.WriteDomainTokenEntry | src/server/c/map/dns_map.c:70-79 | Appends one entry to the file |
| DnsMaps.DnsMap.PutToken | src/server/c/map/dns_map.c:172-182 | The domain gets the token, the token becomes known, the log grows by the entry exactly if asked to; the old token is returned |
| DnsMaps.DnsMap.PutIpv4 | src/server/c/map/dns_map.c:160-170 | The token gets the address and becomes known, the log grows exactly if asked to; the old address is returned |
| DnsMaps.DnsMap.HasToken | src/server/c/map/dns_map.c:184-186 | Whether the token is known |
| DnsMaps.DnsMap.GetTokenFromDomain | src/server/c/map/dns_map.c:148-150 | The token of the domain, if it has one |
| DnsMaps.DnsMap.GetIpv4FromToken | src/server/c/map/dns_map.c:144-146 | The address of the token, if it has one |
| DnsMaps.DnsMap.RoomyFits | src/server/c/map/hash_map.c:38-40 | With fewer than 0x28000000 keys in each table, every put is possible |
| DnsMaps.DnsMap.ReadDomainTokenEntry | src/server/c/map/dns_map.c:52-68 | Puts the next whole entry without logging it again, or reports that there is none |
| DnsMaps.DnsMap.ReadDomainFile | src/server/c/map/dns_map.c:113-118 | The loop puts every whole entry of the domain file |
| DnsMaps.DnsMap.ReadIpFile | src/server/c/map/dns_map.c:120-125 | The loop puts every whole entry of the address file |
| DnsMaps.CreateDnsMap | src/server/c/map/dns_map.c:128-142 | The new map holds what replaying the domain file and then the address file gives |
| Names.DomainIsJoin | src/server/c/dns/answer.c:128-152 | Every name is looked up under its labels joined by dots, as far as the first NUL byte |
| Names.DomainIsDottedName | src/server/c/dns/answer.c:128-152 | A name without NUL bytes is looked up under its labels joined by dots |
| Names.SharedKey | src/server/c/dns/answer.c:128-168 | Two names share a key if and only if, cut at their first NUL byte and split at the dots inside labels, they are the same |
| Names.PlainNamesDiffer | src/server/c/dns/answer.c:128-168 | Names of labels without dots and NUL bytes share a key if and only if they are equal |
| Names.DotsCollide | src/server/c/dns/answer.c:142-146 | Two labels have the key of the one label with a dot between them |
| Names.NulsCollide | src/server/c/dns/answer.c:149-168 | What follows a NUL byte makes no difference to the key |
| Answers.EncodeStatusFlags | src/server/c/dns/codec.c:287-290 | The shifted fields or-ed together are the header word that holds them in order |
| Answers.DecodeStatusFlags | src/server/c/dns/codec.c:303-312 | Shifting and masking gives each field of the header word |
| Answers.FlagsRoundTrip | src/server/c/dns/codec.c:287-312 | Header flags in range are decoded as they were encoded |
| Answers.LabelsToDomain | src/server/c/dns/answer.c:128-152 | The buffer is the labels joined by dots and a terminator, filled within its size |
| Answers.GetIp | src/server/c/dns/answer.c:159-177 | The address behind the token behind the name; the flag becomes 1 exactly when there is none |
| Answers.MakeRRReply | src/server/c/dns/answer.c:72-100 | Copies name, type and class; the address for IN A or ANY, otherwise flag 2 and no data |
| Answers.MakeRRReplyAll | src/server/c/dns/answer.c:106-115 | One record a question, in order, with the flag shared by all |
| Answers.MakeReply | src/server/c/dns/answer.c:17-66 | The reply that the lemmas of `Replies` describe, for any map contents |
| Protocol.OneReply | src/server/c/dns/answer.c:17-66 | What a reply has to be, in numbers, leaves only one reply to a message in a state |
| Replies.ReplyIs | src/server/c/dns/answer.c:17-115 | The reply built for any message is that one: id, questions and RD copied, header word 0x8400 plus RD and code, code 1, 4, 3 or 0 as the first failing check or the last unanswered question says, and a record of 300 seconds and the stored address for IN A or ANY, of 0 seconds and no data for the rest |
| Replies.ReplySent | src/server/c/threads/dns_thread.c:55-82 | For every accepted buffer that can be replied to, the bytes sent back are parsed, to the last one, as that reply, with the same id |
| Replies.AnswerIs | src/server/c/dns/answer.c:72-100 | A question of class 1 and type 1 or 255 is answered exactly when its name has an address, and any other never is |
| Replies.ResolveIs | src/server/c/dns/answer.c:159-177 | A look-up gives the stored address of the token of the name, or nothing if the name or its token is missing |
| Replies.DomainIs | src/server/c/dns/answer.c:128-152 | The key of a name is its labels joined by byte 46, up to the first NUL byte |
| Replies.HeaderErrorIs | src/server/c/dns/answer.c:25-38 | The header checks as quotients and remainders of the header word |
| Replies.HandledUnlessRoot | src/server/c/dns/answer.c:140-149 | What the reply builder relies on holds of every parsed message, except when an IN A or ANY question asks for the root |
| Replies.RootNotHandled | src/server/c/dns/answer.c:140-149 | Some accepted datagram of 17 bytes is such an exception |
| Replies.RcodeDecided | src/server/c/dns/answer.c:24-63 | The id is copied, and the zero bits are zero. The first failing header check decides the response code; otherwise it is no error exactly when every question is answered, and if not, the last failing question decides and no answers are sent |
| Replies.FlagIsLastFailure | src/server/c/dns/answer.c:106-115 | The shared flag is what the last failing question left in it |
| Replies.ReplyPrintable | src/server/c/dns/answer.c:41-63 | A reply has bytes behind all its data pointers if and only if the header is fine or every name asked for resolves |
| Replies.UnresolvedNotSendable | src/server/c/dns/answer.c:25-50 | For every one-label name that does not resolve, some datagram that can be handled has a reply without bytes behind a data pointer |
| Replies.HeaderErrorKeepsAnswers | src/server/c/dns/answer.c:25-50 | A reply to a header error has one record a question, with its name, type and class and the address if there is one |
| Replies.ReplySize | src/server/c/dns/answer.c:41-63 | With Q bytes of k questions, n of them IN A or ANY, and 5k + 2n <= Q: 12 + Q bytes for a lookup error, no more than the request, and 12 + 2Q + 6k + 4n for an answer or a header error, so at most 1722 and 1724 for 512 |
| Replies.ReplyIsSmall | src/server/c/dns/codec.c:134-137 | The reply to a buffer below 1 GiB is within the index range of the printer |
| Replies.ReplyArrives | src/server/c/threads/dns_thread.c:55-82 | The bytes sent back for an accepted buffer are parsed, to the last one, as the reply that was built |
| Replies.EndToEnd | src/server/c/threads/dns_thread.c:55-82 | For every accepted buffer that is a query for names that all resolve, parsing the reply gives the same id and questions, QR and AA set, RD copied, no error, and for each question its labels, 300 seconds and the address stored for the token stored for its name |
| Replies.PlainEndToEnd | src/server/c/threads/dns_thread.c:55-82 | A query for names without NUL bytes is answered with the address stored for the token stored for each name, and with a name error exactly if one of them is missing |
| Server.HandleDatagram | src/server/c/threads/dns_thread.c:55-82 | Nothing for a datagram that is too short, otherwise the printed reply; the map stays as it is |
| Server.RegisterFunc | src/server/c/threads/console_thread.c:52-74 | Links an unregistered domain to the first four bytes of the argument, in memory and in the log, and refuses a registered one without any change |
| Server.ProcessClientConnection | src/server/c/threads/binding_thread.c:96-138 | A packet of the wrong size changes nothing and gets no response; an unknown token is refused; a known one is bound |
| Server.RestartServer | src/server/c/main.c:36-75 | The map after a clean restart is created from the logs alone |
| Server.ListFunc | src/server/c/threads/console_thread.c:77-101 | Lists every link and every address once, and nothing else |
| Server.BoundDomainsResolve | src/server/c/threads/binding_thread.c:113-133 | After any run, once the token a domain was first registered with is presented, its name resolves, to whatever address |
| Server.RestartForgetsAddresses | src/server/c/threads/binding_thread.c:133 | After a clean restart no name resolves, while domains and tokens are what they were |
| Server.AnsweredWhileBound | src/server/c/dns/answer.c:41-63 | After any run, and whatever the addresses, a query for names is answered exactly when, for every name, the token of the first step that registered it was presented after that and since the last restart; otherwise it gets a name error |
| Server.AnsweredOnTheWire | src/server/c/threads/dns_thread.c:55-82 | The bytes sent back for such a query are parsed as its id and questions with either no error and one record of four address bytes for every name, when that holds of all names, or a name error and no answers |
| Server.ServeStep | src/server/c/threads/dns_thread.c:84-126 | Carrying out one step on the map takes what one run leaves to what the run with that step leaves, up to addresses |
| Server.Serve | src/server/c/main.c:36-75 | Carrying out any run of fewer than 0x28000000 steps from empty files keeps every table in range, leaves what the run says, and answers every datagram as is due at its point of the run, up to addresses |

## Left out

- Server.BoundDomainsResolve: does not say which address, because the binding thread stores a pointer to a local variable of its accept loop.
- Server.ProcessClientConnection: puts the address itself, whereas the source stores a pointer to a local variable that the next connection overwrites (`src/server/c/threads/binding_thread.c:133`). The theorems over runs therefore hold of every state that agrees with the run up to addresses (`Traces.After`), and none says which address a token has.
- Server.AnsweredWhileBound: asks for a query of names alone; `Replies.RcodeDecided` covers the others.
- Server.Serve: takes the steps of the threads in one given order, each as a whole, and datagrams of at most 512 bytes that meet the conditions under "What callers must provide".
- Server.HandleDatagram: asks for the conditions under "What callers must provide"; outside them the source reads or writes out of bounds.
- DnsMaps.CreateDnsMap: asks that the tables that come out stay within the range of a C int (`Roomy`); the source multiplies sizes without a check.
- Server.RestartServer: asks the same of the tables that the logs give, and stands for a shutdown after which both files were closed in full. After a binding, `destroy_dns_map` frees the stored pointer to the stack (`src/server/c/main.c:71`) before the files are closed (`src/server/c/main.c:74`). For logs that were cut off, see `DnsStates.CrashedRun`.
- DnsMaps.ReadStringFrom: for a negative stored length the source returns 0 as the model does, but after reading past its buffer. No log that was written, or cut off, has one (`Logs.LogsAreSane`).
- Logs.CrashPrefix: says nothing about appending after a torn entry, which would be read as its continuation.
- Sockets, the accept, receive and send loops, `main`, thread creation and the client program.
- Data races: the source has no locks, and the model takes each register, bind and query as one step.
- Failing writes, real file handles and stdio buffering.
- `malloc` and `free`, `destroy_hash_map`, `destroy_dns_map`, `free_message` and the printing functions.
- Name compression, case-insensitive names, the 63-byte label limit and truncation at 512 bytes, which the source does not implement.
- The DEBUG build, which has a different time to live.
- The splitting of a console line into arguments; a token argument shorter than three bytes, after which the source reads past the argument, counts as its bytes up to the terminator.
