# A verified model of a PBFT-style approximate-agreement testbed

The system is a small Rust testbed for agreement protocols. The core modelled here has five parts:

- **The PBFT-style approximate-agreement node.** The leader (replica 0) collects `Init` values from the servers. At 2f+1 values it broadcasts them in a `Prepare`. Followers echo the vector once. Every node tallies the `Echo` vectors it receives. It amplifies a vector whose tally is exactly f+1. It delivers the median of a vector whose tally is exactly n−f, reporting it to the synchronizer.
- **Authenticated message intake.** Every message travels in a `WrapperMsg` that carries a MAC over the bincode encoding of its payload. The MAC uses the secret key the two servers share. `check_proposal` recomputes the MAC; `process_msg` drops messages that fail it and dispatches the rest. The reliable-broadcast node's intake and `terminate` follow the same pattern.
- **The synchronizer.** It waits until every server is ALIVE and then broadcasts START. It collects COMPLETED reports with their values and arrival times. Once ⌊2n/3⌋+1 servers have reported, it judges whether they agree and broadcasts STOP.
- **The configuration records.** These are `Node` and `Client`, with their `validate` checks and the `update_config` address rewrites.
- **The configuration generator.** It draws one secret key per unordered pair of servers, fills in every record, and validates the records.

How the model is built:

- Each state-changing component is a class whose methods update their fields in place. The classes are the PBFT node `PbftNode.Context`, the reliable-broadcast node `RbcNode.Context` and the synchronizer `Synchronizer.Syncer`.
- Sends are appended to outboxes. Each send files a cancel-handler token, as the source's `add_cancel_handler` does.
- The configuration records are values. A `&mut self` method is a method from the old record to the new one.
- The MAC function, the key generator and the random draws are parameters. So is `is_valid_replica`, which comes from the config crate's root module (`use super::…`), whose source is not among the modelled files.
- The bincode encodings the messages use are modelled byte for byte, so the round trips are proved rather than assumed.

Modules, one per file:

| Module | Contents |
|---|---|
| `Ints`, `Wrappers` | Integer widths; option and result types |
| `Bincode`, `BigEndian`, `Text` | Encoding helpers |
| `Crypto`, `Wire` | The MAC; `WrapperMsg` |
| `PbftMsg`, `RbcMsg`, `SyncTypes` | The payloads |
| `Transport` | Outboxes and cancel handlers |
| `Sorting`, `Statistics` | The sort and the median |
| `Config`, `NodeConfig`, `ClientConfig` | Shared config vocabulary; the `Node` and `Client` records |
| `PbftNode`, `RbcNode` | The two nodes |
| `Synchronizer` | The synchronizer |
| `GenConfig` | The generator |

## Model

| member | source | states |
|---|---|---|
| Bincode.U32RoundTrip | types/src/msg/msg.rs:30 | Decoding a `u32`'s four little-endian bytes, whatever follows them, gives back the value and the rest. |
| Bincode.U64RoundTrip | types/src/msg/msg.rs:30 | Decoding a `u64`'s eight little-endian bytes gives back the value and the rest. |
| Bincode.VecU64RoundTrip | types/src/msg/msg.rs:30 | A `Vec<u64>` (length prefix, then elements) decodes back to itself and the rest. |
| Bincode.EncodeVecU64 | types/src/msg/msg.rs:48 | A `Vec<u64>` takes 8 + 8·len bytes: an 8-byte length, then 8 bytes per element. |
| Bincode.EncodeVecU8 | types/src/msg/msg.rs:48 | A `Vec<u8>` takes 8 + len bytes: an 8-byte length, then the bytes. |
| Bincode.VecU8RoundTrip | types/src/msg/msg.rs:30 | A `Vec<u8>` (length prefix, then bytes) decodes back to itself and the rest. |
| Wire.NewIsAuthentic | types/src/msg/msg.rs:28-37 | `WrapperMsg::new` keeps the payload and the sender unchanged, and its MAC verifies under the key it was made with. |
| Wire.WrongKeyRejected | crypto/src/hash.rs:39-54 | For a MAC that binds keys of one length, a wrapper does not verify under any other key of that length. |
| Crypto.KeyBindingExists | crypto/src/hash.rs:39-54 | The key-binding hypothesis of Wire.WrongKeyRejected can be met for keys of at most 32 bytes, the secret-key size, so that lemma is not vacuous. The witness ignores the message and does not model `do_mac`. |
| Wire.AuthenticIffSealed | crypto/src/hash.rs:39-54 | A wrapper verifies under a key exactly when it equals what `WrapperMsg::new` builds from its payload and sender with that key. |
| Wire.RoundTrip | types/src/msg/msg.rs:40-50 | `from_bytes(to_bytes(w))` is `w`, even with trailing bytes, for any payload codec that round-trips on prefixes. |
| PbftMsg.MsgRoundTrip | consensus/pbft/src/node/process.rs:33-37 | A `Msg { content, origin }` decodes back from its encoding. |
| PbftMsg.SerializeRoundTrip | consensus/pbft/src/node/process.rs:13 | Every PBFT payload (`Init`, `Prepare`, `Echo`) decodes back from its bincode encoding followed by anything. |
| PbftMsg.SerializeInjective | consensus/pbft/src/node/process.rs:13 | Two payloads with the same encoding are equal, so a MAC over the encoding covers the payload. |
| PbftMsg.Codec | consensus/pbft/src/node/process.rs:13 | The PBFT payload codec meets the prefix round-trip property the wire format needs. |
| RbcMsg.SerializeRoundTrip | consensus/rbc/src/node/process.rs:13 | The `Ping(Msg, Replica)` payload decodes back from its bincode encoding followed by anything. |
| RbcMsg.Codec | consensus/rbc/src/node/process.rs:13 | The reliable-broadcast payload codec meets the prefix round-trip property. |
| BigEndian.VecToU64BigEndian | consensus/pbft/src/node/context.rs:13-19 | For at most 8 bytes, the result is the big-endian value of the input right-padded with zero bytes to 8. Equivalently it is the input's own big-endian value times 256^(8−len). |
| BigEndian.ValueIsReversedLE | consensus/pbft/src/node/context.rs:13-19 | The big-endian value of a byte string equals the little-endian value of its reversal, an independent definition of the same number. |
| BigEndian.ValuePadded | consensus/pbft/src/node/context.rs:14-18 | Right-padding with k zero bytes multiplies the big-endian value by 256^k. |
| Text.Decimal | consensus/pbft/src/node/ping.rs:119 | The decimal rendering of a number is non-empty and made of the digits 0–9. |
| Text.DecimalValue | consensus/pbft/src/node/ping.rs:119 | Reading the rendering back as decimal digits gives the number, and there is no leading zero, as `format!("{}", n)` prints it. |
| Sorting.Sort | consensus/pbft/src/node/ping.rs:109 | The sort's result is ascending and a permutation of its input. |
| Sorting.SortedUnique | consensus/pbft/src/node/ping.rs:109 | Two ascending sequences with the same elements are equal, so the unstable and the stable sort agree on integers. |
| Sorting.SortPermutationInvariant | node/src/syncer.rs:131 | Sorting two permutations of each other gives the same list. |
| Sorting.SortIsTheSortedPermutation | consensus/pbft/src/node/ping.rs:109 | Any ascending permutation of the input is the sort's result. |
| Statistics.MiddleTextSpellsMiddle | consensus/pbft/src/node/ping.rs:113-120 | The reported text is the whole part of the middle value, followed by `.0` or `.5` for an even length, whichever the exact mean calls for. |
| Statistics.MedianTextSpellsMedian | consensus/pbft/src/node/ping.rs:106-120 | The text a node reports for a delivered vector spells the vector's exact median in the same way. |
| Statistics.MedianPermutationInvariant | consensus/pbft/src/node/ping.rs:106-109 | The delivered median does not depend on the order of the vector's elements. |
| Statistics.MedianBetweenExtremes | consensus/pbft/src/node/ping.rs:106-120 | The median lies between the vector's least and greatest elements, both of which occur in the vector. |
| Statistics.MedianOddIsElement | consensus/pbft/src/node/ping.rs:117-120 | For an odd length the median is one of the vector's values. |
| Statistics.MiddleEvenExample | consensus/pbft/src/node/ping.rs:114-116 | The sorted vector [1, 2, 3, 4] has middle 2.5, reported as "2.5". |
| Statistics.MiddleOddExample | consensus/pbft/src/node/ping.rs:117-120 | The sorted vector [1, 3, 5] has middle 3, reported as "3". |
| Statistics.MedianEvenExample | consensus/pbft/src/node/ping.rs:106-120 | Every ordering of 1, 2, 3, 4 delivers 2.5 and reports "2.5". |
| Statistics.MedianOddExample | consensus/pbft/src/node/ping.rs:106-120 | Every ordering of 5, 1, 3 delivers 3 and reports "3". |
| NodeConfig.NewNode | config/src/node.rs:76-96 | A new record has empty maps, zero counts, `delta` 50 and the syncer at `0.0.0.0:5000`. |
| NodeConfig.Validate | config/src/node.rs:48-74 | `Ok` exactly when there are n+1 addresses, 2f < n and every secret key belongs to a valid replica and has the key size. The first failing check is reported: a wrong map length first, then the fault bound. A reported invalid entry or key size names a real offending key. |
| NodeConfig.UpdateConfig | config/src/node.rs:137-164 | Entry i becomes the i-th address, the node's own entry becomes the wildcard host on the same port, and other entries stay. The syncer address becomes the address at index n when there is one. No other field changes. If the node's id has an address, `my_ip` is then the wildcard host on that address's port. `client_ip` is unchanged. |
| NodeConfig.MyIp | config/src/node.rs:166-171 | The node's own address is its entry in the address map, one of the configured addresses. A missing entry is the `expect` panic, a precondition here. |
| NodeConfig.ClientIp | config/src/node.rs:175-177 | The syncer-facing listen address is the wildcard host on `client_port`, whatever the address map holds. |
| ClientConfig.NewClient | config/src/client.rs:53-64 | A new record has empty maps and zero counts. |
| ClientConfig.Validate | config/src/client.rs:33-51 | `Ok` exactly when there are n addresses, 2f < n and every address key is a valid replica. The first failing check is reported, and an invalid entry names a real offending key. |
| ClientConfig.UpdateConfig | config/src/client.rs:105-113 | Entry i becomes the i-th address, the other entries stay, and no other field changes. |
| PbftNode.RecipientsMembership | consensus/pbft/src/node/context.rs:134-146 | A broadcast reaches every key holder if the node is the leader, and every key holder but itself otherwise. |
| PbftNode.WrapsSealed | consensus/pbft/src/node/context.rs:141-145 | Packet k of a broadcast goes to recipient k, carries the message and the node's id, and verifies under that recipient's key. |
| PbftNode.AppendSealed | consensus/pbft/src/node/context.rs:132-147 | After a broadcast, every packet in the outbox is still from this node and authenticated for its recipient. |
| PbftNode.KeyOrder | consensus/pbft/src/node/context.rs:134 | An iteration order of the key map lists every key exactly once. |
| PbftNode.SentPacketsAuthenticate | consensus/pbft/src/node/process.rs:11-23 | A packet one node sent to another passes the receiver's `check_proposal` when the two hold the same shared key. The packet names the sender as its sender. |
| PbftNode.Context.AddCancelHandler | consensus/pbft/src/node/context.rs:149-154 | The handler is appended to the list under key 0, which is created if absent. Nothing else changes. |
| PbftNode.Context.Send | consensus/pbft/src/node/context.rs:156-159 | Exactly one packet goes out and exactly one handler is filed. The protocol state is unchanged. |
| PbftNode.Context.NotifySyncer | consensus/pbft/src/node/context.rs:164-168 | One message from this node goes to synchronizer 0 and one handler is filed. |
| PbftNode.Context.BroadcastTo | consensus/pbft/src/node/context.rs:141-145 | One turn of the broadcast loop extends the sends by that key's packet exactly when the key is a recipient. |
| PbftNode.Context.SendToPeers | consensus/pbft/src/node/context.rs:133-146 | The loop sends, in key order, one authenticated packet per recipient and files one handler per send. |
| PbftNode.Context.Broadcast | consensus/pbft/src/node/context.rs:132-147 | The outbox grows by exactly the packets of one broadcast and the handlers by one per packet. The message joins the broadcast history. |
| PbftNode.Context.StartInit | consensus/pbft/src/node/ping.rs:11-18 | The node broadcasts `Init` of its input number and keeps the protocol invariant. |
| PbftNode.Context.InitKeepsValid | consensus/pbft/src/node/ping.rs:20-47 | `handle_init` preserves the protocol invariant. Only the leader collects, and `quorum` is 0 or the number of values and never 2f+1 between messages. One `Prepare` carrying the first 2f+1 values has gone out iff 2f+1 values arrived. |
| PbftNode.Context.HandleInit | consensus/pbft/src/node/ping.rs:20-47 | A follower, or a full quorum, changes nothing and sends nothing. On the leader the value is appended. The value that makes 2f+1 resets `quorum` to 0 and broadcasts `Prepare` of all the values; otherwise `quorum` is the number of values. |
| PbftNode.Context.Collect | consensus/pbft/src/node/ping.rs:27-45 | The leader's branch has the effect above and keeps the invariant. |
| PbftNode.Context.PrepareKeepsValid | consensus/pbft/src/node/ping.rs:49-63 | `handle_prepare` preserves the invariant. At most one `Echo` goes out, and none while `echo` is still set. |
| PbftNode.Context.HandlePrepare | consensus/pbft/src/node/ping.rs:49-63 | A follower with `echo` set broadcasts `Echo` of the received vector and clears `echo`. Anything else changes nothing. No tally changes. |
| PbftNode.Context.Terminate | consensus/rbc/src/node/process.rs:43-49 | Exactly one COMPLETED report with the data goes to synchronizer 0, and one handler is filed. |
| PbftNode.Context.Amplify | consensus/pbft/src/node/ping.rs:72-93 | An `Echo` goes out iff `echo` was set and some vector's tally is exactly f+1; that vector is the one echoed. `echo` is cleared exactly then, and the invariant holds. |
| PbftNode.Context.Deliver | consensus/pbft/src/node/ping.rs:95-125 | A report goes out iff some vector's tally is exactly n−f, with no once-only gate. The report is that vector's median text. An empty such vector is the `mid - 1` underflow panic. |
| PbftNode.Context.HandleEcho | consensus/pbft/src/node/ping.rs:65-131 | `echo_quorum` and the received vector's tally each grow by 1, and no other tally changes. Then amplification and delivery follow as above, in that order. |
| PbftNode.Context.AcceptedIffSealed | consensus/pbft/src/node/process.rs:11-23 | `check_proposal` accepts a wrapper iff it is exactly what `WrapperMsg::new` builds from its payload and claimed sender with the key this node shares with that sender. No one without that key can pass as the sender. |
| PbftNode.Context.AcceptsSealed | consensus/pbft/src/node/process.rs:18 | A wrapper built with the key this node shares with its sender is accepted. |
| PbftNode.Context.ProcessMsg | consensus/pbft/src/node/process.rs:25-44 | An unknown sender is a panic and a failed MAC changes nothing. Otherwise `Init` goes to `handle_init` with the wrapper's sender, and `Prepare` and `Echo` go to their handlers with the payload's contents. The invariant is kept. |
| PbftNode.Context.SyncStep | consensus/pbft/src/node/context.rs:189-220 | START broadcasts `Init` and then reports STARTED. STOP ends the loop. Every other state changes nothing. |
| PbftNode.Context.Step | consensus/pbft/src/node/context.rs:170-222 | An exit signal ends the loop (an error if its sender was dropped), and a closed channel is an error. A message is processed as above; outboxes only grow. |
| PbftNode.Context.Run | consensus/pbft/src/node/context.rs:161-226 | ALIVE goes to the synchronizer first. The loop ends normally only on the exit signal or STOP, and the outboxes only grow. |
| PbftNode.Context.Spawn | consensus/pbft/src/node/context.rs:46-130 | The node's numbers and keys come from the configuration, and the leader is exactly replica 0. The input is stored as the big-endian number of the message bytes (see Left out), and the echo flag starts as given. All state starts empty, and the invariant holds. |
| RbcNode.Context.AcceptedIffSealed | consensus/rbc/src/node/process.rs:11-23 | `check_proposal` accepts a wrapper iff it is exactly what `WrapperMsg::new` builds with the key shared with its claimed sender. |
| RbcNode.Context.AcceptsSealed | consensus/rbc/src/node/process.rs:18 | A wrapper built with the shared key is accepted. |
| RbcNode.Context.ProcessMsg | consensus/rbc/src/node/process.rs:25-41 | An unknown sender is a panic, and a failed MAC changes nothing. An authenticated `Ping` hands its inner message to `handle_ping`, and sends nothing. |
| RbcNode.Context.Terminate | consensus/rbc/src/node/process.rs:43-49 | Exactly one COMPLETED report with the data goes to synchronizer 0, and one handler is appended. |
| Synchronizer.Fanout | node/src/syncer.rs:75-80 | A broadcast is one message to each replica 0..n−1, in order. |
| Synchronizer.Differences | node/src/syncer.rs:128-130 | One elapsed time per reporter, `time − start_time`, in the listing's order. |
| Synchronizer.ReportedValues | node/src/syncer.rs:132-135 | The set of reported values is exactly the values of the map. |
| Synchronizer.ElapsedTimes | node/src/syncer.rs:127-131 | The result exists iff no report precedes the start (the subtraction would underflow). It is then the sorted elapsed times of one enumeration of the reports. |
| Synchronizer.PermutedDifferences | node/src/syncer.rs:128-131 | Reordering the reporters permutes their elapsed times. |
| Synchronizer.EnumerationsPermute | node/src/syncer.rs:128 | Two iteration orders of the timings map list the same reporters, each exactly once. |
| Synchronizer.ElapsedOrderIrrelevant | node/src/syncer.rs:127-131 | The sorted elapsed times are the same for every iteration order of the timings map. |
| Synchronizer.Syncer.Spawn | node/src/syncer.rs:51-66 | `num_nodes` is the address map's size and everything else starts empty. |
| Synchronizer.Syncer.Broadcast | node/src/syncer.rs:75-80 | The outbox grows by one message per replica 0..n−1, the handlers stay one per send, and no other state changes. |
| Synchronizer.Syncer.AddCancelHandler | node/src/syncer.rs:153-156 | The handler is appended and nothing else changes. |
| Synchronizer.Syncer.Alive | node/src/syncer.rs:99-114 | The sender joins the alive set. START goes to every server, and the clock restarts, whenever the set then holds n replicas, repeats included. |
| Synchronizer.Syncer.Conclude | node/src/syncer.rs:125-143 | When no report precedes the start, one verdict is added: disagreement iff more than one distinct value was reported, otherwise the sorted elapsed times. STOP then goes to every server. An underflow panics and changes nothing. |
| Synchronizer.Syncer.Handle | node/src/syncer.rs:98-146 | ALIVE acts as above. COMPLETED overwrites the sender's time and value and concludes exactly when ⌊2n/3⌋+1 servers have reported. Other states change nothing. |
| Synchronizer.Syncer.Step | node/src/syncer.rs:84-148 | The exit signal ends the loop (an error if its sender was dropped), and a closed channel is an error. A message is handled as above. |
| Synchronizer.Syncer.Run | node/src/syncer.rs:82-151 | The loop ends normally only on the exit signal; STOP does not end it. Outbox and verdicts only grow. |
| GenConfig.Faults | tools/genconfig/src/main.rs:144-148 | A given fault count is used as is. The default `(n−1)/3` satisfies 2f < n and 3f < n ≤ 3f+3, and it underflows exactly when n = 0. |
| GenConfig.Port | tools/genconfig/src/main.rs:223 | `base + i`, with the index cast to `u16`, when the sum fits in 16 bits; otherwise the overflow panic. |
| GenConfig.RowStartTotal | tools/genconfig/src/main.rs:203-205 | The triangular loop draws n(n+1)/2 keys in all. |
| GenConfig.PairIndexBound | tools/genconfig/src/main.rs:203-205 | Every pair's key is one of those n(n+1)/2 draws. |
| GenConfig.PairIndexInjective | tools/genconfig/src/main.rs:203-205 | Distinct unordered pairs use distinct draws. |
| GenConfig.PairIndexOnto | tools/genconfig/src/main.rs:203-205 | Every draw belongs to some unordered pair. |
| GenConfig.DistinctPairsDistinctKeys | tools/genconfig/src/main.rs:203-212 | With a fresh key generator, two servers share their key with no other pair. |
| GenConfig.DrawStep | tools/genconfig/src/main.rs:205-209 | Pushing the pair's key onto row i and, unless i = j, onto row j keeps every entry equal to its pair's key. |
| GenConfig.DrawRow | tools/genconfig/src/main.rs:204-211 | The inner loop fills row i's columns i..n−1 and the matching column i of the later rows. |
| GenConfig.GenerateKeys | tools/genconfig/src/main.rs:197-213 | Every row has n keys, entry (i, j) is the key of the pair {i, j}, and the matrix is symmetric. n(n+1)/2 keys are drawn. |
| GenConfig.SharedNetMapShape | tools/genconfig/src/main.rs:237-257 | The shared map has n+1 entries: server i at `127.0.0.1:{base_port+i}` and, at index n, the synchronizer's run port. |
| GenConfig.ClientNetMapShape | tools/genconfig/src/main.rs:240-242 | The synchronizer's map has n entries, server i at `127.0.0.1:{client_base_port+i}`. |
| GenConfig.KeyMap | tools/genconfig/src/main.rs:232-234 | A server's `sk_map` holds its row of the matrix, column j under key j. |
| GenConfig.Populate | tools/genconfig/src/main.rs:214-250 | It succeeds iff no port overflows. Record i then has id i, the option fields, client port `client_base_port+i`, the payload text of its draw and row i's keys. Both address maps hold server i's entries. |
| GenConfig.ShareMaps | tools/genconfig/src/main.rs:254-257 | Every record receives the shared address map and the empty public-key map, and nothing else changes. |
| GenConfig.ValidateNodes | tools/genconfig/src/main.rs:286-308 | Passes iff every record passes `validate`. |
| GenConfig.NodeRecordValid | tools/genconfig/src/main.rs:306-307 | A record as written passes `validate` exactly when the generation succeeds. |
| GenConfig.Build | tools/genconfig/src/main.rs:197-257 | It succeeds iff no port overflows, and then every record holds what is written for it. |
| GenConfig.RecordsSymmetric | tools/genconfig/src/main.rs:232-234 | `node[i].sk_map[j] == node[j].sk_map[i]` for all servers i, j. |
| GenConfig.Generate | tools/genconfig/src/main.rs:144-331 | With n = 0 and no fault count, the default subtraction panics. A port overflow panics. The result is produced iff the fault bound, the ports and every replica are valid. The records are then as written and pairwise symmetric, and the client record is exact. |
| GenConfig.ConfiguredPeersAuthenticate | tools/genconfig/src/main.rs:232-234 | Two servers spawned from one generation accept each other's packets. |

## Left out

- I/O and concurrency are left out. This covers the tokio select loop, channels, `TcpReceiver`/`TcpReliableSender`, the forwarding handlers and the process wiring of node/src/main.rs. Sends are appended to outboxes, and the events of a select loop are an input sequence.
- The SHA-256 and HMAC primitives of crypto/src/hash.rs are not modelled. The MAC is a parameter, so every property holds for any MAC function, except Wire.WrongKeyRejected. That lemma assumes the MAC binds keys of one length, an idealisation: HMAC-SHA256 is at best computationally key-binding.
- Clocks, sleeps and randomness are parameters. `SystemTime::now` is the `now` of each synchronizer event. `SecretKey::generate` is the oracle `generate`, and `gen_range(0, 20000000)` is `draws`. The 3-second sleep before START is left out.
- Log lines are left out, and so is the `sender`/`sender_id` argument of the handlers, which only appears in them.
- File reading and writing are left out: `from_json`, `from_toml`, `from_yaml`, `from_bin` and the `write_*` calls. So are genconfig's command-line parsing, the output-format choice and the `local` ip-file writing. Addresses are (host, port) pairs, and their text form and parsing are not modelled.
- `is_valid_replica` comes from the config crate's root module (`use super::…`), whose source is not among the modelled files; it is the parameter `isValid`.
- The two key-map loops follow one fixed order each. `broadcast`'s loop follows the order of `sec_key_map`, and `validate`'s key loop picks keys nondeterministically, because HashMap iteration order is not specified.
- The source's unused fields are not modelled. These are the syncer's `sharing_complete_times`, `recon_start_time`, `net_map` and `cli_addr`, the node's certificate fields (carried, never set), and `do_hash`/`ser_and_hash`.
- consensus/rbc/src/node/context.rs is not part of this model. The reliable-broadcast node's constructor sets only the fields its intake and `terminate` use.
- `handle_ping` of the reliable-broadcast node is not part of this model. Its calls are recorded in `pinged`.
- The PBFT node's `terminate` and `start_ping` are defined outside the modelled files. `terminate` is modelled as the reliable-broadcast node's `terminate`, and the START arm calls `start_init`, the protocol's start step.
- Statistics.MedianText: exact only for values whose f64 sum is exact (below 2^53). It renders the mean as whole part plus `.0`/`.5`. f64 rounding and the exponent form `{:?}` uses from 1e16 upwards are not modelled.
- ClientConfig.Validate: does not model the overflow of `2*num_faults` near the 64-bit limit (client.rs:37); the comparison is on unbounded integers.
- PbftNode.Context.Spawn: the source stores the raw message bytes in `inp_message` (context.rs:31, 117) and sends them in `Init`. The decoded `number` (context.rs:58) is only logged. The model's `Init` carries a `u64`, so the node stores the decoded number and `Init` carries that. `Context` (context.rs:20-43) declares none of the fields the handlers in ping.rs use: `quorum`, `values`, `echo`, `echo_quorum` and `vec_counts`. The model chooses their initial values: `quorum` 0, `values` empty, `echo` the parameter `echo0`, `echo_quorum` 0 and `vec_counts` empty.
- `crypto::SECRET_KEY_SIZE` is defined outside the modelled files. The model fixes it at 32 bytes, the size of the generated keys, and GenConfig.NodeRecordValid relies on the two agreeing.
- The PBFT `ProtMsg` enum is declared outside the modelled files. Its variants are taken in the order `Init`, `Prepare`, `Echo`, so their bincode tags are 0, 1 and 2.
- NodeConfig.Validate: does not model the overflow of `2*num_faults` or `num_nodes+1` near the 64-bit limit; the comparisons are on unbounded integers.
- PbftNode.Context.HandleEcho: `echo_quorum` and the tallies are unbounded, so their 64-bit overflow after 2^64 echoes is not modelled.
- PbftNode.Context.Spawn: requires at most 8 message bytes, because the decoder's `7 - index` underflows and panics beyond that. It also requires the node's id in its address map (the `unwrap` of its own address) and 2f < n. node/src/main.rs establishes the last one by validating the configuration before spawning.
- BigEndian.VecToU64BigEndian: requires at most 8 bytes, for the same underflow.
- PbftNode.Context.Run: states the node's own bookkeeping and how the loop ends, not the per-event effects. Those are stated by PbftNode.Context.Step.
- Synchronizer.Syncer.Run: states how the loop ends and that outbox and verdicts only grow. The per-event effects are stated by Synchronizer.Syncer.Step.
- Synchronizer.ElapsedTimes: times are unbounded integers rather than `u128` milliseconds. A report before the start is modelled as the debug-build underflow panic of `time - start_time`, which makes `Conclude` change nothing. A release build would wrap the difference and still broadcast STOP.
- GenConfig.Generate: a port overflow is the debug-build panic. A release build would wrap the 16-bit sum instead.
- GenConfig.Generate: the interleaving of file writes with node validation is not modelled, and only the outcome is. The only algorithm is NOPKI, the only one the source defines.
