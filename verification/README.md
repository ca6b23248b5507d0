# libtorrent send chain, alert queue and peer-connection helpers, in Dafny

This project models four sequential pieces of libtorrent:

- **`chained_buffer`** (module `ChainedBuffers`). This is the chain of buffers a peer connection sends from.
  - The class `ChainedBuffer` keeps the list of buffers and the two counters `m_bytes` and `m_capacity`.
  - It also keeps two ghost logs: the allocations handed to it and the allocations whose destructor has run.
  - `Valid()` ties the counters to sums over the list. It also ties the logs together: every allocation handed over is still in the chain or has been freed once, in order.
  - Each operation is proved against functions on the list:
    - `PopFrontSpec` for `pop_front`;
    - `IovecFrom` for `build_iovec`;
    - `Pending`, the byte stream still to send, for the contents.
  - Lemmas state what those functions mean.
- **`heterogeneous_queue`** (module `HeterogeneousQueues`). This is the append-only queue that stores alerts by value.
  - Its header is not part of this model. The class states the contract its unit test relies on.
  - The three test scenarios are replayed as methods whose postconditions and assertions are the test's checks.
- **`alert_manager`** (module `Alerts`). This is the bounded alert queue with its category mask.
  - `Post` and `PostAll` describe admission, one alert and a run of alerts at a time.
  - Lemmas prove the drop-when-full rule, FIFO order and the bound.
  - The class `AlertManager` posts into a `HeterogeneousQueue` and answers the `should_post` questions.
- **`peer_connection`** (module `PeerConnections`). These are the inline parts of the header:
  - the `pending_block` record, its equality that ignores `busy`, and `has_block`;
  - the request-queue and piece-picking knobs;
  - the super-seeding slots;
  - the receive window;
  - the setters that change one field each.

Module `Common` holds `Option` and the `byte` type.

## Model

| member | source | states |
|---|---|---|
| ChainedBuffers.ChainedBuffer.constructor | trunk/include/libtorrent/chained_buffer.hpp:52 | a new chain is valid and empty: no buffers, nothing to send, nothing handed over or freed |
| ChainedBuffers.ChainedBuffer.Empty | trunk/include/libtorrent/chained_buffer.hpp:64 | `empty()` holds exactly when nothing is left to send, i.e. exactly when `size()` is 0 |
| ChainedBuffers.ChainedBuffer.Size | trunk/include/libtorrent/chained_buffer.hpp:65 | `size()` is the number of bytes still to send, and `0 <= size() <= capacity()` |
| ChainedBuffers.ChainedBuffer.Capacity | trunk/include/libtorrent/chained_buffer.hpp:66 | `capacity()` is the sum of the sizes of all buffers, never below the bytes still to send |
| ChainedBuffers.UsedWithinCapacity | trunk/include/libtorrent/chained_buffer.hpp:183-190 | over any chain, the sum of `used_size` is at most the sum of `size` |
| ChainedBuffers.PopFrontSpec | trunk/include/libtorrent/chained_buffer.hpp:71-93 | reference definition of `pop_front`'s effect on the list, following the loop branch for branch; what it means is proved by `PopFrontDrains`, `PopFrontReleasesPrefix`, `PopFrontReleasesExactly` and `PopFrontAccounts` |
| ChainedBuffers.ChainedBuffer.PopFront | trunk/include/libtorrent/chained_buffer.hpp:68-94 | under `n <= m_bytes`: exactly the first `max(n, 0)` bytes of the stream are removed, and `m_bytes` drops by that much; the released buffers are freed once each and `m_capacity` drops by their sizes; the chain becomes `PopFrontSpec(vec, n).remaining`, so exactly the buffers `PopFrontReleasesExactly` describes are freed, and the invariant is kept |
| ChainedBuffers.PopBuffers | trunk/include/libtorrent/chained_buffer.hpp:71-93 | the loop of `pop_front` computes the chain and the released buffers of `PopFrontSpec`, with the counters equal to the sums over what remains |
| ChainedBuffers.PopFrontDrains | trunk/include/libtorrent/chained_buffer.hpp:68-94 | popping `n` bytes leaves exactly the stream after its first `max(n, 0)` bytes, and lowers the used total by exactly that |
| ChainedBuffers.PopFrontSplits | trunk/include/libtorrent/chained_buffer.hpp:68-94 | the stream before `pop_front(n)` is the `n` bytes dropped followed by the stream after it |
| ChainedBuffers.PopFrontReleasesPrefix | trunk/include/libtorrent/chained_buffer.hpp:73-92 | the released buffers are a prefix of the chain; the rest is kept as it was, except that the first remaining buffer may have its start advanced, keeping the same allocation, data and end of its active region |
| ChainedBuffers.PopFrontReleasesExactly | trunk/include/libtorrent/chained_buffer.hpp:71-92 | a front buffer is freed exactly when it is reached while bytes are still left to pop and its `used_size` is at most those bytes: every released buffer was reached with a positive remainder (the loop guard) and fit, the buffer after the released ones held strictly more than was left (and so was only advanced), the released bytes never exceed `n`, and once nothing is left to pop the rest of the chain is untouched |
| ChainedBuffers.PopFrontAccounts | trunk/include/libtorrent/chained_buffer.hpp:85-92 | the released buffers and the remaining ones together hold every allocation of the chain, in order, and all of its capacity |
| ChainedBuffers.ChainedBuffer.AppendBuffer | trunk/include/libtorrent/chained_buffer.hpp:97-111 | with `used_size <= size`: one buffer is added at the back and earlier buffers are untouched; the stream grows by the buffer's first `used_size` bytes; `m_bytes` grows by `used_size` and `m_capacity` by `size`; the allocation is logged as handed over |
| ChainedBuffers.ChainedBuffer.SpaceInLastBuffer | trunk/include/libtorrent/chained_buffer.hpp:115-120 | 0 on an empty chain; otherwise the room between the end of the last buffer's active region and the end of its allocation |
| ChainedBuffers.ChainedBuffer.AllocateAppendix | trunk/include/libtorrent/chained_buffer.hpp:136-146 | fails, changing nothing, exactly when the chain is empty or `n` exceeds `space_in_last_buffer()`; otherwise it returns the end of the last buffer's active region, grows that region and `m_bytes` by `n`, extends the stream by the `n` bytes found there, and keeps `m_capacity` |
| ChainedBuffers.GrowLast | trunk/include/libtorrent/chained_buffer.hpp:142-143 | growing the last buffer's `used_size` by `n` appends the `n` bytes after its active region to the stream, and keeps the allocations and the capacity |
| ChainedBuffers.CopyInto | trunk/include/libtorrent/chained_buffer.hpp:129 | `memcpy` into a buffer: the copied range holds the source bytes, and every byte before and after it is unchanged |
| ChainedBuffers.AppendCopies | trunk/include/libtorrent/chained_buffer.hpp:125-131 | growing the last buffer and then copying into the space gained extends the stream by exactly the copied bytes; the allocations and the capacity are kept |
| ChainedBuffers.ChainedBuffer.Append | trunk/include/libtorrent/chained_buffer.hpp:125-131 | returns true exactly when the chain is non-empty and the bytes fit in the last buffer's free space; on false nothing changes; on true the last buffer keeps its allocation and `start`, its `used_size` grows by the count, the bytes are copied right after its old active region and every other byte is kept; the stream is extended by exactly the bytes given and `m_bytes` grows by their count |
| ChainedBuffers.IovecFrom | trunk/include/libtorrent/chained_buffer.hpp:152-164 | reference definition of the I/O vector: whole active regions while they fit, then the first bytes of the next one; what it means is proved by the `Iovec` lemmas |
| ChainedBuffers.ChainedBuffer.BuildIovec | trunk/include/libtorrent/chained_buffer.hpp:148-166 | the I/O vector equals `IovecFrom(vec, 0, to_send)`; its lengths sum to `min(max(to_send, 0), size())`; it designates exactly that many leading bytes of the stream; the chain is not changed |
| ChainedBuffers.IovecLength | trunk/include/libtorrent/chained_buffer.hpp:152-164 | the I/O vector's lengths sum to the smaller of the bytes requested and the bytes held |
| ChainedBuffers.IovecCovers | trunk/include/libtorrent/chained_buffer.hpp:152-164 | gathering the I/O vector yields exactly the first bytes of the stream, as many as it is long |
| ChainedBuffers.IovecEntries | trunk/include/libtorrent/chained_buffer.hpp:152-164 | entry `j` is for buffer `i + j` in chain order, starts at that buffer's `start`, and is no longer than its `used_size` |
| ChainedBuffers.IovecWhole | trunk/include/libtorrent/chained_buffer.hpp:155-163 | every entry but the last covers the whole active region of its buffer, so only the final range may be truncated |
| ChainedBuffers.IovecStops | trunk/include/libtorrent/chained_buffer.hpp:153-159 | the vector stops before the end of the chain only once `to_send` bytes are covered, and its last entry is needed to reach them |
| ChainedBuffers.ChainedBuffer.Destroy | trunk/include/libtorrent/chained_buffer.hpp:168-175 | the destructor frees every buffer still in the chain, in chain order; afterwards every allocation ever handed to the chain has been freed exactly once, in the order it was handed over |
| HeterogeneousQueues.HeterogeneousQueue.constructor | branches/alert_queue/test/test_heterogeneous_queue.cpp:79 | a new queue is empty |
| HeterogeneousQueues.HeterogeneousQueue.Size | branches/alert_queue/test/test_heterogeneous_queue.cpp:81-91 | `size()` counts the elements held, and is 0 exactly when the queue holds none |
| HeterogeneousQueues.HeterogeneousQueue.PushBack | branches/alert_queue/test/test_heterogeneous_queue.cpp:79-91 | `push_back` raises `size()` by exactly 1, stores the element last and leaves earlier elements as they were |
| HeterogeneousQueues.HeterogeneousQueue.GetPointers | branches/alert_queue/test/test_heterogeneous_queue.cpp:93-120 | `get_pointers` yields exactly `size()` entries, the elements in insertion order, whatever the output list held before |
| HeterogeneousQueues.HeterogeneousQueue.Swap | branches/alert_queue/test/test_heterogeneous_queue.cpp:151 | `swap` exchanges the complete contents, and so the sizes, of two queues |
| HeterogeneousQueues.HeterogeneousQueue.Clear | branches/alert_queue/test/test_heterogeneous_queue.cpp:183 | `clear` empties the queue and destroys one object per element held |
| HeterogeneousQueues.Element.TypeTag | branches/alert_queue/test/test_heterogeneous_queue.cpp:44-58 | the virtual `type()` is 1 exactly for a `B` and 2 exactly for a `C` |
| HeterogeneousQueues.MakeC | branches/alert_queue/test/test_heterogeneous_queue.cpp:51-59 | a `C` keeps `a` and sets all 100 bytes of its array to the low 8 bits of `c` |
| HeterogeneousQueues.PushAndList | branches/alert_queue/test/test_heterogeneous_queue.cpp:78-121 | after three `B`s and three `C`s are pushed, listing gives six elements in push order, with type tags 1,1,1,2,2,2 and the pushed field values |
| HeterogeneousQueues.SwapAndList | branches/alert_queue/test/test_heterogeneous_queue.cpp:124-167 | after swapping, the first queue lists the two `C`s and the second the three `B`s, each listing replacing the list's previous contents |
| HeterogeneousQueues.ClearDestroysAll | branches/alert_queue/test/test_heterogeneous_queue.cpp:169-186 | the live-instance count rises by one per push and is back to 0 after `clear` |
| Alerts.Post | branches/alert_queue/include/libtorrent/alert_manager.hpp:72-74 | one post either appends the alert or leaves the queue as it was, and never takes a queue within its limit past it |
| Alerts.PostAll | branches/alert_queue/include/libtorrent/alert_manager.hpp:69-78 | a run of posts, one `post_alert` after another, keeps at least the alerts queued and adds at most one per alert posted |
| Alerts.Wanted | branches/alert_queue/include/libtorrent/alert_manager.hpp:91-92 | the category test of both `should_post` overloads: an alert without a category is never wanted, and with every category enabled each alert with one is |
| Alerts.PostAdmitsIffRoom | branches/alert_queue/include/libtorrent/alert_manager.hpp:72-74 | a post appends the alert exactly when the queue is below its limit, and leaves the queue unchanged exactly when it is at or above the limit |
| Alerts.PostRoom | branches/alert_queue/include/libtorrent/alert_manager.hpp:72-74 | every post would append its alert exactly when the queue is below its limit |
| Alerts.PostAllFull | branches/alert_queue/include/libtorrent/alert_manager.hpp:72 | a queue at or above its limit is unchanged by any run of posts |
| Alerts.PostAllKeepsPrefix | branches/alert_queue/include/libtorrent/alert_manager.hpp:69-78 | posting a run of alerts to a queue within its limit appends exactly the longest prefix of the run that fits, in order; from an empty queue with limit L, the first `min(N, L)` of N alerts |
| Alerts.PostAllPreserves | branches/alert_queue/include/libtorrent/alert_manager.hpp:72-74 | a run of posts never removes or reorders a queued alert, and a queue within its limit stays within it |
| Alerts.AlertManager.constructor | branches/alert_queue/include/libtorrent/alert_manager.hpp:54-55 | an empty queue with the given limit and mask |
| Alerts.AlertManager.PostAlert | branches/alert_queue/include/libtorrent/alert_manager.hpp:69-78 | the queue becomes `Post(queue, limit, a)`, whatever the mask says; waiters are notified exactly when the alert became the only one queued; the queue stays within its limit |
| Alerts.AlertManager.ShouldPostType | branches/alert_queue/include/libtorrent/alert_manager.hpp:84-89 | true exactly when a post would be admitted and the type's static category is enabled in the mask |
| Alerts.AlertManager.ShouldPostAlert | branches/alert_queue/include/libtorrent/alert_manager.hpp:91-92 | true exactly when the mask enables a category of the alert, whatever the queue holds |
| Alerts.AlertManager.SetAlertMask | branches/alert_queue/include/libtorrent/alert_manager.hpp:96-100 | in any state: the mask becomes `m`, `alert_mask()` reads back `m` modulo 2^32, and the queue and its limit are unchanged |
| Alerts.AlertManager.AlertMask | branches/alert_queue/include/libtorrent/alert_manager.hpp:102 | the unsigned mask read as a signed 32-bit `int`: the same value modulo 2^32, negative exactly when the top bit is set |
| Alerts.AlertManager.AlertQueueSizeLimit | branches/alert_queue/include/libtorrent/alert_manager.hpp:104 | the limit, which the queue's length never exceeds |
| PeerConnections.NewPendingBlock | branches/libtorrent_aio/include/libtorrent/peer_connection.hpp:109-111 | a fresh request is for the given block, with `skipped == 0` and every flag clear |
| PeerConnections.SameRequest | branches/libtorrent_aio/include/libtorrent/peer_connection.hpp:134-138 | two requests are equal exactly when they agree on everything except `busy` |
| PeerConnections.SameRequestEquivalence | branches/libtorrent_aio/include/libtorrent/peer_connection.hpp:134-138 | the request equality is reflexive, symmetric and transitive, and a change of `busy` alone never breaks it |
| PeerConnections.HasBlock | branches/libtorrent_aio/include/libtorrent/peer_connection.hpp:141-147 | a request matches `b` exactly when it is for the same block index of the same piece |
| PeerConnections.HasBlockIgnoresFlags | branches/libtorrent_aio/include/libtorrent/peer_connection.hpp:141-147 | `has_block(b)` depends on the block alone, not on the counter or flags; equal requests match the same blocks; a fresh request for `b` matches `b` and nothing else |
| PeerConnections.PeerConnection.constructor | branches/libtorrent_aio/include/libtorrent/peer_connection.hpp:180-190 | a connection bound to the given `torrent_peer` (or to none), with an empty receive buffer at position 0, an empty send chain, super seeding off (`[-1, -1]`) and every flag clear |
| PeerConnections.PeerConnection.SetPeerInfo | branches/libtorrent_aio/include/libtorrent/peer_connection.hpp:200-204 | binds or unbinds the `torrent_peer`, never rebinding a bound connection to another one |
| PeerConnections.PeerConnection.PeerExceedsLimit | branches/libtorrent_aio/include/libtorrent/peer_connection.hpp:213-214 | sets the exceeded-limit flag and nothing else |
| PeerConnections.PeerConnection.PeerDisconnectedOther | branches/libtorrent_aio/include/libtorrent/peer_connection.hpp:219-220 | clears the exceeded-limit flag and nothing else |
| PeerConnections.PeerConnection.SetPickerOptions | branches/libtorrent_aio/include/libtorrent/peer_connection.hpp:244-245 | stores the picker options and nothing else |
| PeerConnections.PeerConnection.PreferWholePieces | branches/libtorrent_aio/include/libtorrent/peer_connection.hpp:247-251 | 1 for a peer on parole, otherwise the stored 8-bit setting |
| PeerConnections.PeerConnection.SetPreferWholePieces | branches/libtorrent_aio/include/libtorrent/peer_connection.hpp:257-258 | stores the low 8 bits of `num` in the 8-bit field; a value that fits reads back unchanged when the peer is not on parole |
| PeerConnections.PeerConnection.DesiredQueueSize | branches/libtorrent_aio/include/libtorrent/peer_connection.hpp:434-439 | 1 in end-game mode, otherwise the stored 8-bit queue size |
| PeerConnections.PeerConnection.SuperSeededPiece | branches/libtorrent_aio/include/libtorrent/peer_connection.hpp:291-295 | true exactly when `index` is one of the two super-seeding slots |
| PeerConnections.NotSuperSeeding | branches/libtorrent_aio/include/libtorrent/peer_connection.hpp:1082-1087 | with both slots at `-1`, no piece index is super-seeded to the peer |
| PeerConnections.PeerConnection.CorkSocket | branches/libtorrent_aio/include/libtorrent/peer_connection.hpp:574 | may only be called on an uncorked socket, and leaves it corked |
| PeerConnections.PeerConnection.SendBufferSize | branches/libtorrent_aio/include/libtorrent/peer_connection.hpp:599-600 | the number of bytes queued in the send chain |
| PeerConnections.PeerConnection.SendBufferCapacity | branches/libtorrent_aio/include/libtorrent/peer_connection.hpp:602-603 | the total size of the send chain's buffers, never below the bytes queued |
| PeerConnections.PeerConnection.PacketFinished | branches/libtorrent_aio/include/libtorrent/peer_connection.hpp:607-608 | true exactly when the read position has reached the packet size |
| PeerConnections.PeerConnection.ReceiveBuffer | branches/libtorrent_aio/include/libtorrent/peer_connection.hpp:701-711 | with the read position 0 whenever the buffer is empty: the null interval exactly when the buffer is empty; otherwise the window starts at the logical start, has length `min(recv_pos, buffer size)` and so never exceeds the buffer |
| PeerConnections.PeerConnection.WrRecvBuffer | branches/libtorrent_aio/include/libtorrent/peer_connection.hpp:684-696 | the same window as `receive_buffer()`, available only while no disk buffer is attached to a non-empty receive buffer |
| PeerConnections.ReceiveWindowInside | branches/libtorrent_aio/include/libtorrent/peer_connection.hpp:1007-1016 | because the read position never passes the received bytes (`m_recv_pos <= m_recv_end`, kept by `Valid`), the window lies inside the buffer whenever the received bytes, counted from the logical start, do |

## Left out

- Concurrency in `alert_manager`. The mutex, the condition variable and the blocking `wait_for_alert` are not modelled. `PostAlert` reports whether `notify_all` would run as its boolean result.
- `alert_manager::pending`, `get_all`, `set_alert_queue_size_limit`, `set_dispatch_function`, `num_queued_resume` and `add_extension` are only declared in the header. Their bodies are not part of this model.
- `post_alert_ptr` is `post_alert` followed by `delete`. Memory release is not modelled, so it adds nothing to `PostAlert`.
- The `alert_manager` constructor's body is not in the header. The model assumes it stores the given limit and mask and starts with an empty queue.
- `Alerts.AlertManager.constructor` always takes the mask. The default argument `alert::error_notification` is not modelled, because the value of that constant is defined outside this model.
- `Alerts.AlertManager.constructor` and `AlertQueueSizeLimit`: the source keeps the limit as `size_t`, converted from an `int`. A negative `queue_limit` wrapping to a huge value is not modelled; the limit is a `nat`.
- `Alerts.AlertManager.AlertMask`: the conversion from `uint32_t` to `int` is taken to be two's complement, as on every platform libtorrent targets.
- The `peer_connection` constructor's body is not in the header. The model binds the given `torrent_peer` and starts from neutral values: nothing received, nothing queued, super seeding off, flags clear. Its other arguments (session, settings, allocator, disk thread, I/O service, torrent, socket, remote endpoint, direction) are runtime plumbing and are not modelled.
- `peer_connection` methods that are only declared are not modelled. Examples: requests, cancellation, bandwidth, `incoming_*`/`send_*`/`write_*`, `cut_receive_buffer`, `on_parole`, `superseed_piece`. The same goes for the sockets, disk and timing plumbing and the handler allocator. `on_parole()` enters `PreferWholePieces` as a parameter.
- The source's one-line getters for fields such as `peer_info_struct`, `packet_size` and `receive_pos` return a field unchanged. They are the class's fields and are not modelled as separate members.
- Bit-packing of `pending_block` and of the connection flags is not modelled. The flags are booleans and `skipped` is bounded to 13 bits by its type. `piece_block` itself is not part of this model; here it is a pair of indices compared field by field.
- `PeerConnections.PeerConnection.SuperSeededPiece` requires the slot array to have length 2, which the C++ array type guarantees.
- The receive buffer is a byte sequence, and an attached disk buffer is a boolean plus its size. The interval is a pair of offsets into the buffer, not two pointers.
- Raw memory in `chained_buffer`:
  - Pointers become offsets into a buffer's bytes.
  - A buffer's identity (`buf`) becomes a `Handle`.
  - The `boost::function` destructors are a ghost log of the handles freed.
  - `asio::const_buffer` is a triple of buffer position, offset and length.
  - What a destructor does with the memory is not modelled.
- `ChainedBuffers.ChainedBuffer.PopFront`, `AppendBuffer`, `AllocateAppendix` and `Append`: `m_bytes` and `m_capacity` are unbounded integers. 32-bit `int` overflow of the counters is not modelled.
- `ChainedBuffers.ChainedBuffer.AllocateAppendix` and `Append` take the size as a `nat`. A negative `size` passed to the C++ is not modelled.
- `ChainedBuffers.ChainedBuffer.AppendBuffer` takes the buffer's size (the length of `data`) and `used_size` as natural numbers. The C++ only asserts `size >= used_size`, and a negative size or used size is not modelled.
- `ChainedBuffers.ChainedBuffer.BuildIovec`:
  - It returns a fresh sequence rather than a reference to the member `m_tmp_vec`.
  - The debug assertion that every whole buffer has `used_size > 0` is not required. Zero-length entries are produced as release builds would produce them.
- `ChainedBuffers.ChainedBuffer.PopFront`: the loop runs on values in `PopBuffers`, whose results are written back to the fields. The in-place update of the list's front element is therefore modelled as a replacement.
- `heterogeneous_queue`'s header is not part of this model. The class states only what its test checks. Placement-new storage, virtual dispatch and pointer identity are not modelled: `get_pointers` yields the element values, and `type()` is a function on the element datatype.
- `HeterogeneousQueues.ClearDestroysAll` counts instances through the queue's size. The temporary copied by each `push_back` is created and destroyed within the statement, so it does not change the count.
