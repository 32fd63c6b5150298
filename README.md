# Detection broadcast path of gst-opencv-detector, in Dafny

This project models the sequential core of the detection-broadcast path of
gst-opencv-detector and proves properties of it:

- **Frame codec** (`frame.dfy`, module `Frame`): `message::encode` is
  meant to put a 4-byte `"%4d"` length header before the body in a fixed
  1028-byte buffer, and it refuses bodies of 1024 bytes or more. Line 33 of
  src/message.h copies the body's first four bytes into the header instead
  (see Findings). `Message` is a class over an `array` buffer. `Encode`
  models the intended header and is proved against the specification
  function `Buffer`; `BufferAsWritten` models the code as written.
- **Client decoder** (`client.dfy`, module `Client`): the example Python
  client's `parse_message_size`, its frame-size check and its receive loop.
  The socket is replaced by the byte stream the server sent. The main
  result is the protocol round trip `ClientReceivesEveryFrame`: a stream of
  frames with non-empty bodies is read back as exactly those bodies, in
  order. This holds because the model's `recv` never returns a short read.
  Over real TCP, `recv(message_size)` at examples/detections_client.py:84
  can return part of a body, and the client has no loop to read the rest.
  The next header would then be read from inside that body.
- **Subscriber write pipeline and registry** (`subscribers.dfy`, module
  `Subscribers`): `detections_list_subscriber` is a class with its FIFO
  queue, a flag for the one outstanding write, a closed flag, and ghost
  logs of what was published and what was delivered. The asynchronous
  write completion is the explicit event `OnWriteComplete(ok)`.
  `detections_list_subscriber_manager` is a class holding the set of
  subscribers. The two classes refer to each other, as in the C++, so they
  share one module. The subscriber invariant `Valid()` states FIFO delivery
  (`published == delivered + queue`). It also states that the one
  outstanding write is always of the head, and that on an open socket a
  write is outstanding exactly when the queue is non-empty. The registry
  invariant states that every member is open.
- **Detection assembly** (`object_detector.dfy`, module `ObjectDetection`):
  the `ObjectDetector` initialization guard, the `initialized_` flag and the
  `model_` it guards, and the `get_objects` loop that turns the detector's
  parallel outputs into `Detection` records and resolves class names.

Facts about the code that shape the model:

- The code has no capacity limit and no admission control. The accept loop
  re-arms unconditionally (src/detections_list_server.cpp:34).
- `stop_all` clears the set without calling `close()` on anyone. See the
  Findings row for src/detections_list_subscriber_manager.cpp:24-27.
- An oversize snapshot is forwarded as a null message, not dropped. See
  the Findings row for src/detections_list_subscriber_manager.cpp:8-12.
- The producer's `publish` calls the manager directly from its own
  thread. That is left out as concurrency.

Inputs that come from I/O or foreign code are parameters:

- the serialized FlatBuffers bytes given to the manager's `Publish`;
- the three output arrays of `model_->detect`;
- whether the class-name file opened, and its lines;
- the bytes the client's socket delivers.

## Model

| member | source | states |
|---|---|---|
| `Frame.DecimalDigits` | src/message.h:32 | The digits `%d` prints for `n` read back as `n`, have no leading zero, and number at most 4 below 10000 |
| `Frame.Header` | src/message.h:31-32 | The formatted header is exactly `HEADER_LENGTH` = 4 bytes, each a space or a digit, and once a digit appears every later byte is a digit; the last byte is a digit |
| `Frame.Wire` | src/detections_list_subscriber.cpp:44 | The bytes written for a message, `data()[0, size())`, are `4 + length` bytes: the header of `length`, then the body |
| `Frame.Buffer` | src/message.h:29-35 | Intended buffer after encode: header of `length`, then `raw[0, length)` byte for byte, then zeros up to 1028 bytes |
| `Frame.BufferAsWritten` | src/message.h:33 | Buffer as line 33 fills it: bytes 0-3 are `raw`'s first four bytes, not the formatted header |
| `Frame.Message.constructor` | src/message.h:16-19 | A fresh message has body length 0 and an all-zero 1028-byte buffer |
| `Frame.Message.Encode` | src/message.h:21-39 | Yields a message iff `length < 1024` (no truncation); a fresh message with `body_length == length` and buffer equal to `Buffer(raw, length)` |
| `Frame.CopyInto` | src/message.h:35 | memcpy: the `src` bytes land at offset `at`; every other byte of the buffer is unchanged |
| `Frame.Message.Data` | src/message.h:41-44 | `data()` is the whole 1028-byte buffer |
| `Frame.Message.Body` | src/message.h:46-49 | `body()` is the buffer after the 4 header bytes |
| `Frame.Message.BodyLength` | src/message.h:51-54 | `body_length()` is always below `MAX_BODY_LENGTH` |
| `Frame.Message.Size` | src/message.h:56-58 | `size()` is `HEADER_LENGTH + body_length()` and never exceeds the buffer, so writes stay in bounds |
| `Client.ParseMessageSize` | examples/detections_client.py:25-29 | `int(raw.decode())` or None: a size comes only from ASCII text that holds a digit, and a negative size only from text that holds a minus sign |
| `Client.SizeAccepted` | examples/detections_client.py:83 | `message_size and message_size < MAX_MESSAGE_SIZE` holds for exactly the sizes 1 to 4095 and every negative size; None and 0 fail it |
| `Client.HeaderRoundTrip` | examples/detections_client.py:25-27 | `parse_message_size` of the formatted header of any `n < 10000` is `n` (leading spaces allowed, e.g. `"  42"` gives 42) |
| `Client.NonNumericHeaderRejected` | examples/detections_client.py:28-29 | An ASCII header containing a byte that is not white space, digit, sign or underscore gives None |
| `Client.HeaderAcceptedIffNonEmpty` | examples/detections_client.py:83 | For every length encode accepts, the client accepts the header iff the body is non-empty |
| `Client.ReadFrame` | examples/detections_client.py:78-95 | One loop pass: either the loop stops, or it yields a non-empty body and leaves a strict suffix of the stream unread |
| `Client.Deframe` | examples/detections_client.py:77-99 | Reference definition of the loop over a whole stream: every body read is non-empty and below 4096 bytes, and each frame uses up at least two bytes of the stream |
| `Client.Receive` | examples/detections_client.py:77-99 | The receive loop returns exactly `Deframe(stream)`: the bodies read and why it stopped |
| `Client.DeframeFrame` | examples/detections_client.py:78-88 | A well-formed frame at the front of the stream yields its body, and reading resumes right after it |
| `Client.ClientReceivesEveryFrame` | examples/detections_client.py:77-99 | Round trip: frames of non-empty bodies under 1024 bytes are received as exactly those bodies, in order, ending on disconnect |
| `Client.EmptyFrameEndsReception` | examples/detections_client.py:93-95 | A zero-length body, which encode accepts, is refused as an invalid size and ends the loop |
| `Client.NegativeSizeFailsRecv` | examples/detections_client.py:83-84 | A header `"  -1"` passes the size check; `recv` of a negative size raises and the client stops |
| `Client.AsWrittenHeaderNeverParses` | src/message.h:33 | For every body whose third byte is zero, which covers every FlatBuffers body under 64 KiB, the header line 33 sends parses as None |
| `Client.AsWrittenHeaderUnreadable` | src/message.h:33 | With line 33 as written, a FlatBuffers body starting `12,0,0,0` gives an unreadable header and the client stops; the intended header delivers the body |
| `Subscribers.Subscriber.constructor` | src/detections_list_subscriber.cpp:4-11 | A new subscriber has an open socket, an empty queue and no outstanding write |
| `Subscribers.Subscriber.Start` | src/detections_list_subscriber.cpp:13-16 | `start` adds the subscriber to its manager's set via `join` |
| `Subscribers.Subscriber.Publish` | src/detections_list_subscriber.cpp:18-27 | Appends at the tail, removes nothing; starts a write (of that message) iff the queue was empty before the append |
| `Subscribers.Subscriber.Close` | src/detections_list_subscriber.cpp:29-32 | Sets the closed flag and nothing else; idempotent |
| `Subscribers.Subscriber.DoWrite` | src/detections_list_subscriber.cpp:34-44 | Starts writing the head iff the queue is non-empty; changes nothing else |
| `Subscribers.Subscriber.OnWriteComplete` | src/detections_list_subscriber.cpp:45-62 | Success pops exactly the head into the delivered log and writes the next iff any remain; failure pops nothing, starts no write, and the manager's `leave` removes and closes the subscriber |
| `Subscribers.SubscriberManager.constructor` | src/detections_list_subscriber_manager.h:33 | The registry starts with an empty set |
| `Subscribers.SubscriberManager.Join` | src/detections_list_subscriber_manager.cpp:15-17 | Set insertion: the new set is the old set plus the subscriber, so joining twice changes nothing |
| `Subscribers.SubscriberManager.Leave` | src/detections_list_subscriber_manager.cpp:19-22 | Removes exactly that subscriber and closes it; no other member, and nothing else of it, changes |
| `Subscribers.SubscriberManager.StopAll` | src/detections_list_subscriber_manager.cpp:24-27 | As written: the set becomes empty and no subscriber is closed |
| `Subscribers.SubscriberManager.StopAllAndClose` | src/detections_list_subscriber_manager.cpp:24-27 | Intended: every former member is closed, with its queue and logs unchanged, and the set becomes empty |
| `Subscribers.SubscriberManager.FanOut` | src/detections_list_subscriber_manager.cpp:10-12 | Every member receives the same message reference exactly once, with `Subscriber.Publish`'s effect; an empty set receives nothing |
| `Subscribers.SubscriberManager.Publish` | src/detections_list_subscriber_manager.cpp:6-13 | Intended publish: one message is built; an oversize snapshot changes no subscriber; otherwise every member gets that same message; membership is unchanged |
| `Subscribers.SubscriberManager.PublishAsWritten` | src/detections_list_subscriber_manager.cpp:8-12 | As written: an oversize snapshot makes every member queue a null message |
| `ObjectDetection.ObjectDetector.constructor` | src/object_detector.cpp:4-11 | Width and height are -1, not initialized, no model, no class names |
| `ObjectDetection.ObjectDetector.Initialize` | src/object_detector.cpp:13-51 | Succeeds iff config, weights and class-name paths are non-null, width > 0, height > 0 and the file opened. Success sets the flag, creates the model from the weights and config files, and appends the file's lines. Failure changes nothing; the flag never goes back to false |
| `ObjectDetection.ObjectDetector.IsInitialized` | src/object_detector.cpp:53-56 | `is_initialized()` holds exactly when a model is loaded, so the `model_->detect` of `get_objects` never meets an empty `model_` |
| `ObjectDetection.InitializeBeforeCaps` | src/object_detector.cpp:17 | A freshly constructed detector cannot initialize, whatever the paths and file |
| `ObjectDetection.ObjectDetector.GetObjects` | src/object_detector.cpp:78-119 | Not initialized: FALSE and nothing appended. Otherwise TRUE and one Detection per result, appended after the existing ones in index order: id, box and confidence from that index, and name `class_names_[id - 1]` when `1 <= id <= count`, else "" |

## Left out

- GStreamer element code (src/gstopencvdetector.cpp, src/gstopencvserver.cpp): properties, caps events, chain functions and plugin registration are framework glue. Caps reach the model by assigning `width` and `height`, as the element does.
- OpenCV: `model_->detect` becomes three equal-length input sequences. Left out are the `DetectionModel` configuration in `initialize`, `annotate_detection` with the `annotate` argument and image, and the float `conf_threshold`/`nms_threshold`. These are foreign calls and floating point. The model assumes the `DetectionModel` constructor and its setters (src/object_detector.cpp:25-40) return. If one throws `cv::Exception`, line 21 has already appended the class names while `initialized_` stays FALSE, and the model does not capture that state.
- `parse_class_names` and file paths: opening and reading the file is I/O, so its outcome is the input `classNameFile`. Path strings are only null-checked.
- `build_message` serialization with FlatBuffers, and the wall-clock `create_timestamp`: `Publish` takes the serialized bytes. Because of this, `DetectionList` and `Detection::to_string` are not modelled either.
- src/gstopencv-utils.cpp: buffer and `cv::Mat` conversions through foreign APIs.
- src/detections_list_server.cpp: the io_context, worker thread, accept loop and destructor join are threading and sockets. Accepting a connection is `Subscriber.constructor` followed by `Start`. The direct cross-thread call to the manager in `publish` is a concurrency hazard that a sequential model cannot express.
- src/detections_list_server.h is a stale stub that does not match the .cpp.
- Capacity and admission control: the code has none, so the model has none.
- Socket transport: `async_write` either sends all `size()` bytes or fails, and is modelled as `DoWrite` plus `OnWriteComplete`. `socket_.close()` is the `closed` flag.
- Object lifetimes: `shared_ptr` reference counts and the `self` capture that keeps a subscriber alive during a write are not modelled. A subscriber's queue holds message references and does not re-check their bytes.
- The outbound queue is unbounded, as in the code.
- Subscribers.SubscriberManager.StopAll: "closed" means an explicit `close()` call. A socket closed by the subscriber's destructor, when the set drops the last owning `shared_ptr`, is not modelled.
- Recv: TCP may return fewer bytes than requested even when more are on the way, and the client does not loop on a short read. The model's `recv` returns every requested byte still unread.
- ParseMessageSize: only ASCII input is modelled. Python's `int()` also accepts non-ASCII Unicode digits and spaces after UTF-8 decoding; the model returns None for any byte of 128 or more. White space is the ASCII set Python's integer parser skips (tab, newline, vertical tab, form feed, carriage return, space).
- GetObjects: `class_id - 1` is computed without overflow. In C++ it is undefined for `INT_MIN`, which detector ids never reach. The `static_cast<int>` of a name count above `INT_MAX` is not modelled.
- The client's FlatBuffers parsing and printing of received bodies (examples/detections_client.py:86,88). They raise on a body that is not a DetectionList FlatBuffer, such as a 1-3-byte body. An exception there ends the loop through the outer `except` (line 104); the model assumes every body parses, so `ClientReceivesEveryFrame` holds only under that assumption.

## Findings

| source | as written | input that shows it | evidently intended | confidence | as-written member | corrected member |
|---|---|---|---|---|---|---|
| src/message.h:33 | copies the first 4 bytes of `raw` over the header instead of the formatted `header` from line 32 | a FlatBuffers body of length 8 starting `12,0,0,0`: the client reads no size and stops | header = formatted length, copied from `header` | high; not executed | `Client.AsWrittenHeaderUnreadable` | `Frame.Message.Encode` |
| src/detections_list_subscriber_manager.cpp:24-27 | `stop_all` clears the set without calling `close()` on any subscriber. An idle subscriber loses its only owner, so only its destructor closes the socket. A subscriber with a write in flight stays alive through the `self` capture (src/detections_list_subscriber.cpp:36,45): it stays open and unregistered, and keeps writing its queue until the queue drains or a write fails | one joined subscriber with a write in flight, then `stop_all`; no file in the repository calls `stop_all` | close every member, then clear | high; not executed | `Subscribers.SubscriberManager.StopAll` | `Subscribers.SubscriberManager.StopAllAndClose` |
| src/detections_list_subscriber_manager.cpp:8-12 | forwards the null result of `encode` (line 77) for a snapshot of 1024 bytes or more to every subscriber, whose `do_write` dereferences it | a serialized snapshot of 1024 bytes with one subscriber | drop the snapshot | high; not executed | `Subscribers.SubscriberManager.PublishAsWritten` | `Subscribers.SubscriberManager.Publish` |
