# trfb, modelled and proved

trfb is a small RFB (VNC) server that follows RFC 6143, with a webcam library beside it. This
project models its core in Dafny 4.11 and proves what the pieces promise, up to three results about
whole runs:

* a connection thread, with its two 2048-byte buffers, its retry loops and a device that may take
  or give any prefix, time out or fail, behaves like a pure interpreter over the bytes the client
  sent (`Connections.Connection.Run`), and it ends only when the interpreter gives the client up,
  when the device has failed or when the server has stopped it;
* after any history of client messages, the payload of the next update, read in the format the
  client chose last, is the server's screen cut to that format's channels
  (`Updates.UpdateAfterHistory`), and a client that keeps to its version and asks for pixel sizes
  of one, two or four bytes is served that way from its first byte on
  (`Updates.ConformingClientIsServed`);
* over every interleaving of all threads, and for the code as written, a shutdown is safe exactly
  if the reaper never unlinked a connection behind another one (`Lifecycle.ShutdownIsSafeExact`),
  and in every endless run of fair threads a stop returns exactly if it came in time and every
  connection whose mark a late store takes back ends some day (`Shutdown.FairStopExact`).

`dafny verify dfyconfig.toml` checks everything; so does the same command with
`--resource-limit 2000000 --warn-contradictory-assumptions`.

## How it is built

| file | what it models |
|---|---|
| `words.dfy`, `pixels.dfy`, `memory.dfy` | bytes and 32-bit words with C's shifts; packing channels into pixels; pixel memory in either byte order |
| `framebuffer.dfy`, `conversion.dfy` | the framebuffer object over an array of bytes; what converting whole images keeps and loses |
| `io.dfy` | the buffered streams over a scripted device |
| `protocol.dfy`, `messages.dfy` | the version message; client messages, their encoding and their parsing |
| `session.dfy`, `handshake.dfy` | the pure interpreter: reactions to messages, the greeting, a whole connection |
| `connection.dfy` | the connection thread, step by step, proved against the interpreter |
| `updates.dfy` | what a client sees, after any history |
| `lifecycle.dfy` | application, server and connection threads as a state machine, one step for each section under a lock; what every run keeps, and when a shutdown is safe |
| `threads.dfy` | what each thread may do, where it waits, and what the words it stores mean |
| `shutdown.dfy` | that stopping ends among fair threads, and runs that reach the source's mistakes |
| `reaper.dfy`, `events.dfy`, `sequences.dfy` | the reaper's walk over the linked list; the event ring |
| `delivery.dfy` | from a client's bytes to the poller's events |
| `colorspace.dfy`, `formats.dfy`, `agreement.dfy` | the webcam library's converter; the layouts its header promises; its round trips, and its agreement with the framebuffer |

The environment is made explicit. A device is a script of answers to receive and to send (`n`
bytes, a timeout, a failure; the end of the script is a closed connection); the length of the
script is what the retry loops count down. Everything else that can happen to a message is a
`Weather`: the server's framebuffer as found each of the two times its lock is taken, and whether
memory can be had; there is one for each message. When the server's STOP arrives is the number of
checks that still find nothing (`patience`). The host's byte order is a constant of each object.

## Where the code is not what it seems

The model follows the code. Where the code departs from its own intent or from the protocol, the
departure is stated and decided exactly:

| place | departure | what is proved |
|---|---|---|
| `src/io.c:271` | the arguments of `memmove` are swapped after a partial send | `Shift` holds both versions; a flush conserves the bytes exactly if it does no harm (`Harms`), and the written move does none exactly if the pending bytes repeat with the length of what was sent (`PartialSendExact`). Until a move does harm all results hold of the code as written; a device that takes all or nothing never gives occasion for any |
| `src/io.c:268`, `src/connection.c:332` | a timeout looks like an empty buffer | `Connection.Flush` returns with bytes buffered exactly when the device's last answer was a timeout |
| `src/server.c:128-153` | `prev` is never advanced | `ShutdownIsSafeExact`, `StepLoses`, `ReaperLosesExact`, `AsWrittenExact`; runs of the source that lose a connection and free the framebuffer under it |
| `src/connection.c:226-228` | a store of WORKING after the connection was linked in | `WordsMoveForwardExact`: it is the only step that takes a word back, exactly when it finds a mark; it does no harm to safety, and a stop among fair threads waits for the clients whose marks it takes back (`FairStopExact`), for ever if they stay (`LateStoreStarves`) |
| `src/server.c:165-170` | stop polls a word nobody will write again | `StopReturnsExact`: it can return exactly if its STOP precedes the server thread's final store; `FairStopExact` |
| `src/connection.c:418` | the framebuffer is created width by width | `SquareExact`: the next update repairs it, and it makes a difference exactly if there is no memory for that and only one of the two sizes is the screen's; an input |
| `src/connection.c:472` | the corner of a requested rectangle is compared with the rectangle's own size | `AnsweredExact`: a rectangle on the screen is answered exactly if its corner is no further out than it is wide and high; a request on the screen that is ignored, and one past it that is answered |
| `src/connection.c:488-498` | the header carries the requested rectangle, the payload the whole screen | `HeaderFitsPayload`: they fit exactly for whole-screen requests |
| `src/connection.c:137` | ServerInit announces 32 bits per pixel whatever the server's framebuffer has | `AnnouncedFormatHolds`: right without SetPixelFormat exactly if the server has four-byte pixels |
| `src/connection.c:117-120` | a client of version 3.8 that chooses a wrong security type gets no SecurityResult (section 7.1.3 of RFC 6143) | `GreetingConformsExact`: for every input the bytes written are those of the protocol exactly if that is not the case |
| `src/connection.c:541` | a cut text's length is a signed expression | `ParseEncoded`: parsing undoes encoding exactly below 2^31; `Messages.Parse` says what happens above |
| `src/fb.c:124,224,247` | bytes are counted in 32 bits | `AllocationExact`: memory allocated by that count is large enough exactly if the count does not wrap round; the interpreter stops there (`Wraps`), and so does `Connection.Run` |
| `src/fb.c:17` | masks are cut to eight bits before they are normalised | `LiftedMaskFits`: a channel of the server's stays in its byte exactly if its mask is at most 255; `WhiteIsFullExact`: white reaches the maximum of a client's channel exactly then, so that a client with ten bits for each channel gets a dark picture |
| `src/connection.c:401` | the true-colour flag is read and never looked at | `Sessions.Handle` follows the code: a client that asks for a colour map (section 7.6.2 of RFC 6143) is served like any other |
| `libwebcam/colorspace.c:140-493` | sizes are counted in 32 bits | `SizeExact`, with RGB32's 64-bit factor |
| `libwebcam/colorspace.c:176,216` | the logical or joins the bytes of 24-bit pixels | `PixelRoundTripExact`, `Meant24` |
| `libwebcam/colorspace.c:298` | green of RGB565 is masked with 0xf8 | `PixelRoundTripExact`, `Meant565` |
| `libwebcam/colorspace.c:406-446` | neutral chroma is 128 in the comments, 64 in what is written and 0 in what is read | `GreyEncoded`, `GreyDecodedExact`; GRAY is read with 128, and never comes in as grey (`GrayIsNeverGrey`) |
| `libwebcam/colorspace.c:101,104` | a pointer is compared with an enumerator, so the direct path is never taken | `DirectPathAgrees`: it would write the same bytes |

## Model

| member | source | states |
|---|---|---|
| Words.NumbersAreValues | src/connection.c:361-373 | the two- and four-byte numbers that are read and written are the values of their bytes as digits of base 256, highest first |
| Words.WordsAreNumbered | src/trfb.h:114 | the number in a 32-bit word: zero has 0, and the word with the next number is the next word |
| Pixels.ComputeNorm | src/fb.c:17-35 | the doubling loop ends for every mask and finds the normalisation of its low byte |
| Pixels.NormLiftsMask | src/fb.c:17-35 | a mask of 1..255 is lifted to 128..255 |
| Pixels.LiftedMaskFits | src/fb.c:17-35 | a lifted mask stays in eight bits exactly if the mask is at most 255, so that channels of a colour never overlap |
| Pixels.WhiteIsFullExact | src/fb.c:17-35 | white reaches the maximum of a channel of up to 16 bits exactly if its mask is at most 255 |
| Pixels.TenBitLayout | src/fb.c:17-35 | ten bits for each channel are disjoint fields, and white is 255 of 1023 |
| Pixels.PackedChannels | src/trfb.h:132-138 | for any disjoint fields that fit the pixel, each channel of a packed pixel, read with the layout's shift and mask, is that channel of the colour brought down to the mask |
| Pixels.PackUnpack | src/trfb.h:115-138 | set then get yields each component AND (mask << norm) |
| Pixels.UnpackPack | src/trfb.h:120-138 | get then set in one layout keeps the bits inside the three fields and clears the others |
| Pixels.UnpackQuantised | src/trfb.h:120-130 | quantising the colour of a pixel changes nothing |
| Pixels.PackCanonical | src/trfb.h:132-138 | stored pixels have no bit outside their fields, and get then set leaves them alone |
| Pixels.WidenAndBack | src/trfb.h:120-138 | a canonical pixel survives the way through any layout with channels at least as wide |
| Pixels.BuiltInLayouts | src/trfb.h:89-112 | the three built-in layouts have disjoint fields that fit their pixels |
| Pixels.BuiltInNarrower | src/trfb.h:89-112 | each built-in layout's channels fit in those of the larger ones |
| PixelMemory.LoadedStored | src/trfb.h:120-138 | a typed store and load of a pixel give back the word, in either byte order |
| PixelMemory.StoredLoaded | src/trfb.h:120-138 | a typed load and store give back the bytes |
| PixelMemory.StoredNumber | src/trfb.h:120-138 | a stored word has the digits of its number highest first in big-endian memory, lowest first in little-endian memory |
| PixelMemory.LoadedNumber | src/trfb.h:120-138 | the same of what is loaded |
| PixelMemory.ColourNumber | src/trfb.h:115-118 | a colour's bytes, highest first, are the unused one, red, green and blue; and a colour put together of three bytes has them there |
| PixelMemory.BytesOfWords | src/fb.c:365-401 | reading pixel memory as words and writing it back is the identity |
| PixelMemory.WordsOfBytes | src/fb.c:365-401 | writing words to pixel memory and reading them in the same byte order is the identity |
| PixelMemory.SwappedCells | src/fb.c:388-400 | reversing each pixel's bytes turns one byte order's image into the other's, with the same words |
| Framebuffers.Framebuffer.Create | src/fb.c:38-106 | when creation succeeds, and that it gives a zeroed image of the asked size in the layout of the header, field by field for each pixel size |
| Framebuffers.Framebuffer.CreateOfFormat | src/fb.c:293-326 | when it succeeds; then each mask is the number of its maximum, each shift is the one asked for, and the format's bits have become bytes in place |
| Framebuffers.Framebuffer.Copy | src/fb.c:108-135 | a fresh framebuffer that shows the same image, if its bytes can be counted |
| Framebuffers.Framebuffer.GetPixel | src/trfb.h:120-154 | the colour of the word at y * width + x |
| Framebuffers.Framebuffer.SetPixel | src/trfb.h:132-165 | one word is replaced by the packed colour, every other pixel keeps its value |
| Framebuffers.Framebuffer.Convert | src/fb.c:194-260 | when it succeeds; then the target shows the source's image in its own layout, whatever its memory and size were before. Asks only that it does not go on with a count that has wrapped round |
| Framebuffers.Framebuffer.Repaint | src/fb.c:251-257 | the pixel loop re-packs every pixel |
| Framebuffers.Framebuffer.CopyPixels | src/fb.c:247 | the block copy gives the source's words |
| Framebuffers.Framebuffer.Endian | src/fb.c:365-401 | afterwards the memory is the image in the wanted byte order, on either host |
| Framebuffers.Framebuffer.Resize | src/fb.c:147-191 | when it succeeds, and then the resized image; otherwise nothing changes |
| Framebuffers.Framebuffer.Describe | src/fb.c:262-291 | each maximum is the number in the low 16 bits of its mask, the shifts, depth and flags; creating from it gives the same layout when the masks fit 16 bits |
| Framebuffers.ResizedAt | src/fb.c:157-174 | every pixel of the common rectangle stays at its coordinates, every other one is zero |
| Framebuffers.GrowAndShrink | src/fb.c:147-191 | growing and shrinking back is the identity |
| Framebuffers.IndicesFit | src/fb.c:152-170 | for dimensions up to 0xffff the number of pixels is below 2^32, and so is the index of each |
| Framebuffers.AllocationExact | src/fb.c:124-225 | memory allocated by the 32-bit count of bytes has room for the image exactly if the count does not wrap round |
| Framebuffers.AllocationCounterexample | src/fb.c:124-225 | 32768 by 32768 pixels of four bytes are counted as none; 40000 by 40000 of one or two bytes are counted right |
| Framebuffers.MaskOfMax | src/fb.c:283-285 | a mask of 16 bits survives the format's two bytes |
| Framebuffers.MaskNumber | src/fb.c:314-316 | the mask made of a maximum is that number |
| Conversion.ConvertQuantises | src/fb.c:238-257 | on both paths the target shows each source pixel quantised to its masks |
| Conversion.FastPathShowsTheSame | src/fb.c:238-249 | on equal layouts copying and re-packing show the same colours |
| Conversion.FastPathStoresTheSame | src/fb.c:238-249 | they store the same words exactly if no pixel has a bit outside its fields |
| Conversion.RepackTwice | src/fb.c:251-257 | re-packing twice changes nothing more |
| Conversion.WideningIsLossless | src/fb.c:194-260 | an image of canonical pixels survives the way to a wider layout and back |
| BufferedIo.Device.Recv | src/trfb.h:28-33 | the contract of the read function: a non-empty prefix, 0 for a timeout, -1 for a failure |
| BufferedIo.Device.Send | src/trfb.h:28-34 | the contract of the write function |
| BufferedIo.Io.Read | src/io.c:35-68 | bytes handed out followed by what is buffered and still to come are conserved; the device is asked only when the buffer is used up; fewer bytes than asked for only when it is used up afterwards; -1 exactly for a bad length or a failing device |
| BufferedIo.Io.Write | src/io.c:70-111 | what has been accepted grows by exactly the accepted prefix, also on an error, and unless a move does harm it is what was sent followed by what is buffered; when this call does harm; less than all is accepted only when the buffer is full afterwards |
| BufferedIo.Io.Flush | src/io.c:257-279 | what one send leaves in the buffer, for every answer of the device and either move; sent and buffered bytes are conserved exactly if the move does no harm |
| BufferedIo.Io.MoveRest | src/io.c:270-272 | the block move after a partial send, with the source's arguments or the other way |
| BufferedIo.KeptExact | src/io.c:264-278 | sent and kept bytes are the pending ones exactly if the move is repaired or the pending bytes repeat with the length of what was sent |
| BufferedIo.WholeIsHarmless | src/io.c:264-278 | a device that takes all or nothing gives no occasion for harm |
| BufferedIo.PartialSendExact | src/io.c:270-272 | the move as written keeps the right bytes exactly if the pending ones have the period of what was sent |
| BufferedIo.PartialSendCounterexample | src/io.c:270-272 | two different bytes, one sent: the wrong one is kept |
| BufferedIo.Io.Fgetc | src/io.c:281-292 | one byte, or EOF with nothing consumed after a timeout or failure |
| BufferedIo.Io.Fputc | src/io.c:294-299 | one byte accepted, or EOF and none, after a timeout or failure |
| BufferedIo.Io.Getc | src/trfb.h:311 | the macro conserves bytes although it never resets the positions |
| BufferedIo.Io.Putc | src/trfb.h:312 | the macro appends one byte or gives EOF |
| Protocol.VersionMessage.Encode | src/protocol.c:62-92 | the twelve bytes of the version, the size query and the short buffer |
| Protocol.VersionMessage.Decode | src/protocol.c:94-120 | total on twelve bytes, refuses other lengths without a change |
| Protocol.VersionRoundTrip | src/protocol.c:62-120 | decoding undoes encoding for all versions; only the texts of 3.7 and 3.8 decode to those, any other one to 3.3 |
| Protocol.VersionTexts | src/protocol.c:62-92 | the three texts, character by character |
| Messages.ParseEncoded | src/connection.c:198-259 | an encoded message parses to itself and uses exactly its own bytes, whatever follows, if and only if it is no cut text, or one shorter than 2^31 that finds memory |
| Messages.ParsedIsEncoded | src/connection.c:361-552 | whatever is parsed is the encoding of the message parsed |
| Messages.ParseIsIncremental | src/connection.c:283-301 | parsing looks at the message's own bytes only and says nothing before it has them all |
| Messages.CutTextEncoded | src/connection.c:534-552 | the same for the one message that can be refused |
| Messages.ParsedFields | src/connection.c:361-552 | where in a message's bytes each of its fields stands, and that it is the number there (sections 7.5.1 to 7.5.6 of RFC 6143) |
| Messages.ParseDecides | src/connection.c:198-552 | how many bytes a message of each type needs, and the exact condition under which a client is given up for one |
| Sessions.DispatchIsExact | src/connection.c:235-259 | for every sequence of encoded messages the right handlers run in order with the encoded values and use exactly each message's bytes |
| Sessions.InterpretInParts | src/connection.c:235-259 | input that ends with a complete message can be interpreted in two parts |
| Sessions.InterpretOne | src/connection.c:235-259 | one complete message has exactly its handler's effect |
| Sessions.HeaderReads | src/connection.c:479-496 | what a client reads in the sixteen bytes of an update's header, number by number |
| Sessions.InputBecomesEvent | src/connection.c:501-552 | the event that a key, pointer or cut text message makes, in terms of the message's bytes; it changes nothing else |
| Sessions.OthersMakeNoEvent | src/connection.c:375-499 | the other messages make none, and SetEncodings changes nothing |
| Handshakes.GreetingConforms | src/connection.c:77-161 | after any twelve bytes, a client that goes on as the decoded version does gets exactly that version's messages (sections 7.1.1 to 7.3.2 and Appendix A of RFC 6143), and its own bytes are used up |
| Handshakes.GreetingConformsExact | src/connection.c:77-161 | for every input, wrong choices and unfinished ones included, the bytes written are those the protocol prescribes (sections 7.1.1 to 7.3.2 and Appendix A of RFC 6143) exactly if the client is not one of version 3.8 that chose a type it was not offered |
| Handshakes.ToldWhy | src/connection.c:117-120 | such a client is owed a SecurityResult and a reason, after what it gets |
| Handshakes.RefusedChoiceCounterexample | src/connection.c:117-120 | the choice of type 2 in version 3.8, and the same choice in 3.7, where the silence is right |
| Handshakes.GreetingIsIncremental | src/connection.c:77-161 | the answers to a prefix are a prefix of the answers; nothing is settled before its bytes have come |
| Handshakes.GreetStages | src/connection.c:77-161 | what has been written after each stage, also when the choice is refused |
| Handshakes.ServerInitAnnounces | src/connection.c:132-156 | ServerInit reads back as the size, the announced format and a name of the announced length |
| Handshakes.ServerInitReads | src/connection.c:132-156 | what a client reads in the 28 bytes of ServerInit, number by number |
| Handshakes.Version8Reads | src/connection.c:77-161 | what a client of version 3.8 gets, byte by byte: the version, one type, which is 1, the result 0 and ServerInit |
| Handshakes.Version7Reads | src/connection.c:77-161 | the same for 3.7, without a result |
| Handshakes.Version3Reads | src/connection.c:77-161 | what whoever sends any other text gets: the version, the number 1 and ServerInit |
| Handshakes.RefusedReads | src/connection.c:106-120 | what a client gets that chooses another type than 1, and what one of version 3.8 is owed: the number 1, and the reason after its length |
| Connections.Connection.CheckStopped | src/connection.c:179-189 | a marked thread stores STOPPED and ends, any other goes on |
| Connections.Connection.ReadSome | src/connection.c:264-281 | a non-empty piece of the input, or nothing consumed: after STOP, or exactly if the device has failed |
| Connections.Connection.ReadAll | src/connection.c:283-301 | exactly `len` bytes over any chunking, or the thread has ended with fewer |
| Connections.Connection.WriteSome | src/connection.c:303-320 | a non-empty prefix is accepted, or the thread was stopped, or exactly if the device has failed -1 |
| Connections.Connection.Flush | src/connection.c:322-338 | nothing lost; bytes stay buffered exactly if the last answer was a timeout |
| Connections.Connection.WriteAll | src/connection.c:340-359 | everything accepted, or a prefix and the thread has ended |
| Connections.Connection.SetEncodings | src/connection.c:375-391 | refines the interpreter on this message, whole or cut anywhere |
| Connections.Connection.SetPixelFormat | src/connection.c:393-425 | the same, with the new framebuffer and format |
| Connections.Connection.Paint | src/connection.c:445-462 | the session's framebuffer, or a copy of the server's, shows the server's screen in its own layout; when it fails, and when a count of bytes wraps round |
| Connections.Connection.SendUpdate | src/connection.c:477-498 | header and payload in the client's byte order are appended to the output |
| Connections.Connection.UpdateRequest | src/connection.c:427-499 | refines the interpreter on this message, independently of what the framebuffer's memory held |
| Connections.Connection.KeyEvent | src/connection.c:501-517 | refines the interpreter: one event with the encoded values |
| Connections.Connection.PointerEvent | src/connection.c:519-532 | the same for the pointer |
| Connections.Connection.ClientCutText | src/connection.c:534-552 | the same for a cut text, with its length's wrap-around and its allocation |
| Connections.Connection.Process | src/connection.c:198-209 | the handler for the type runs; an unknown type gives the client up |
| Connections.Connection.Dispatch | src/connection.c:235-259 | the loop refines the interpreter over everything it was handed |
| Connections.Connection.Negotiate | src/connection.c:77-161 | the handshake refines the greeting, wherever it is cut |
| Connections.Connection.Run | src/connection.c:211-262 | the whole thread: events, consumed bytes and accepted bytes are the interpreter's, for every script of the device and either move, and unless a move did harm the accepted bytes are those sent and buffered; it ends in ERROR exactly if the device failed or the interpreter gives up, having read no byte past what decided that, else in STOPPED |
| Connections.AdvancedOn | src/connection.c:235-259 | refinements of consecutive parts compose |
| Connections.ServedDispatching | src/connection.c:230-259 | the handshake's refinement and the dispatcher's compose |
| Connections.ServeInParts | src/connection.c:230-259 | serving a whole greeting and more is greeting, then interpreting the rest |
| Updates.PayloadShowsScreen | src/connection.c:456-498 | each pixel of the payload, read in the client's byte order with its shifts and masks, is the server's pixel cut to those masks, on either host, for any disjoint channels of the client's |
| Updates.HistoryDecides | src/connection.c:393-425 | after any history the session's layout and byte order are those of the last format set |
| Updates.ChoiceAfter | src/fb.c:293-326 | the format in force after SetPixelFormat has the message's numbers: size in bytes, maxima as masks, shifts and byte order; no other message changes it |
| Updates.UpdateAfterHistory | src/connection.c:393-499 | after any history, an update request that the guard lets through adds bytes in which a client reads, number by number, a header for one Raw rectangle at the place asked for and of the size cut to the screen, and from byte 16 on the whole screen in the format chosen last (sections 7.6.1 and 7.7.1 of RFC 6143); any other request adds nothing |
| Updates.AnswerReads | src/connection.c:464-498 | the same of the one reply |
| Updates.AnsweredExact | src/connection.c:464-475 | a request for a rectangle on the screen is answered exactly if its corner is no further from the origin than it is wide and high |
| Updates.IgnoredRequestCounterexample | src/connection.c:464-475 | the last of three pixels in a row is on the screen and not sent; a rectangle past them is answered |
| Updates.HandlerServes | src/connection.c:393-462 | with memory and a screen to show, a handler gives the client up exactly if it asks for a format whose pixel size is not 1, 2 or 4 bytes |
| Updates.HistoryServes | src/connection.c:235-259 | the same for whole histories |
| Updates.EveryUpdateIsServed | src/connection.c:393-499 | after any history of acceptable messages the next update request is served: it gets nothing if the guard drops it, else the screen in the format in force |
| Updates.ConformingClientIsServed | src/connection.c:211-262 | from the first byte: the version's greeting, the replies to the history, then the update as above |
| Updates.SquareIsMade | src/connection.c:393-425 | SetPixelFormat leaves a framebuffer as high as the screen is wide, in a layout of the message's numbers |
| Updates.SquareExact | src/connection.c:418-462 | a framebuffer as high as it is wide instead of the screen's height makes a difference to an update exactly if there is no memory and only one of the two has the screen's size |
| Updates.SquareCounterexample | src/connection.c:418-462 | a client chooses a format while the screen has two pixels side by side: its framebuffer is two by two, and without memory for the next update it is given up |
| Updates.HeaderFitsPayload | src/connection.c:464-498 | header and payload fit each other exactly for whole-screen requests |
| Updates.PartialRequestCounterexample | src/connection.c:488-498 | a request for one of two pixels gets a header for one and a payload of two |
| Updates.AnnouncedFormatHolds | src/connection.c:137-149 | without SetPixelFormat the announced format is right exactly if the server has four-byte pixels |
| Lifecycle.StepKeeps | src/server.c:59-224 | every step of every thread, of the code as written or as meant, keeps the invariant |
| Lifecycle.RunKeeps | src/server.c:59-224 | so does every interleaving |
| Lifecycle.LostStays | src/server.c:128-224 | no step brings a connection back into a list, or joins or frees one outside the lists |
| Lifecycle.StepLoses | src/server.c:128-153 | a step leaves none lost exactly if none was and it does not unlink one behind others without advancing `prev` |
| Lifecycle.ShutdownIsSafeExact | src/trfb.c:39-51 | when stop returns, and when destroy frees the framebuffer, both lists are empty and every connection ever accepted was joined once and freed once, after its thread had finished, exactly if every connection reaped in the run stood at the head or the code advances `prev` |
| Lifecycle.AdvancingIsSafe | src/server.c:136-144 | with `prev` advanced every connection is settled at the end of every run |
| Lifecycle.CreatedIsHeldPlusFreed | src/server.c:116-154 | at any time each connection created is in one list, once, or settled, or lost, and none is lost exactly under the same condition |
| Lifecycle.WordsMoveForwardExact | src/connection.c:179-228 | a step moves every connection's word forward (from WORKING to STOP or ERROR, from STOP to STOPPED or ERROR) exactly if it is not a late store that finds a mark |
| Lifecycle.ReaperLosesExact | src/server.c:128-153 | unlinking as written loses exactly the connections in front |
| Threads.ConnectionWords | src/connection.c:179-228 | a connection's word changes in four ways only: its mark, by the server; STOPPED, by its own thread that has found the mark; ERROR, by its own thread; and the late store |
| Threads.WordsAreMeant | src/server.c:59-102 | the server thread ends with STOPPED exactly if it has found STOP at the top of its loop, else with ERROR; nothing in between changes that, and a launch succeeds exactly if the server was seen at work |
| Threads.StoppedWasAsked | src/server.c:84-92 | in every run a server that ends with STOPPED was asked to stop |
| Threads.EveryTurnReaps | src/server.c:84-154 | between two looks at its word the server thread looks at every client, and stays to join one exactly if that one has ended |
| Threads.CanStepExact | src/server.c:17-224 | where each thread can step and where it waits, in both directions |
| Threads.DeadlockExact | src/server.c:17-224 | no thread at all can step exactly if all have come to their ends, but for a stop that polls after the final store |
| Threads.OutsideMayAlways | src/server.c:80-118 | listening, waiting and clients may fail, and clients come or stay away, wherever the code meets them |
| Threads.DestroyStopsExact | src/trfb.c:39-51 | destroying goes straight on to free the framebuffer exactly if the server is not at work, else it stops it first |
| Shutdown.MarkedNeverRise | src/server.c:190-219 | after the marking pass no step of any thread marks a connection, so that the number of those that have not reacted never rises |
| Shutdown.EveryStepIsForward | src/server.c:160-224 | no step of any thread takes a stop further from its end, and a step of the thread that can help takes it closer |
| Shutdown.FairStopExact | src/server.c:160-224 | in every endless run of weakly fair threads, of either code, stop returns exactly if its STOP comes before the final store and every connection whose mark a late store takes back before it has returned ends some day |
| Shutdown.FairStopEnds | src/server.c:160-224 | the way there: a stop under way comes closer to its end until it has returned |
| Shutdown.ReturnedAfterAll | src/server.c:210-219 | the way back: when it has returned, those connections have ended |
| Shutdown.FairStopReturns | src/server.c:160-224 | in particular it returns where no late store takes a mark back, whether or not `prev` is advanced |
| Shutdown.StopCanReturn | src/server.c:160-224 | in either code, fair or not, a stop that is not too late can be brought to its end |
| Shutdown.StopReturnsExact | src/server.c:160-175 | in either code stop can return exactly if its STOP came before the final store |
| Shutdown.StuckForever | src/server.c:160-170 | a stop after the final store polls for ever |
| Shutdown.StopAfterFinalStore | src/server.c:164-170 | the STOP store leads there exactly if the server thread has made its final store |
| Shutdown.ReaperCounterexample | src/server.c:128-153 | a run of the source from the start, at whose end a running connection is lost |
| Shutdown.UnsafeShutdownHappens | src/trfb.c:39-51 | a run of the source from the start, at whose end the framebuffer is about to be freed while a connection thread runs |
| Shutdown.LateStoreCounterexample | src/connection.c:226-228 | a run of the source from the start, in which a marked connection goes back to work and the server waits for it |
| Shutdown.LateStoreStarves | src/connection.c:226-228 | that run goes on for ever, fair to every thread, and stop never returns |
| Shutdown.ShutdownHappens | src/server.c:160-224 | a launched server with a connected client can be stopped and joined, and the end is safe |
| Shutdown.FairStopsHappen | src/server.c:160-224 | fair endless runs with a stop in them exist |
| Reaping.Clients.Add | src/server.c:120-123 | a new connection goes to the front of the list |
| Reaping.Clients.Unlink | src/server.c:136-144 | the relinking, with and without a predecessor, leaves a well-formed list |
| Reaping.Clients.Reap | src/server.c:128-154 | one pass over the linked list leaves exactly `Kept` and joins and frees the finished ones once each, in order |
| Reaping.KeptMembers | src/server.c:128-154 | with `prev` advanced exactly the working connections stay |
| Reaping.KeptInOrder | src/server.c:128-154 | they keep their order |
| Reaping.KeptOrFinished | src/server.c:128-154 | every entry is either kept or finished |
| Reaping.AsWrittenExact | src/server.c:128-154 | the pass as written leaves the right list exactly if no working connection stands in front of a finished one |
| Reaping.AsWrittenCounterexample | src/server.c:128-154 | a working connection in front of a finished one is dropped |
| Events.Ring.AddEvent | src/server.c:249-270 | the ring's contents grow by the event, whose structure is cleared; a full ring refuses and changes nothing; the effect on all structures |
| Events.Ring.PollEvent | src/server.c:272-295 | the oldest event is handed over and leaves the ring; the effect on all structures |
| Events.Cell.MoveFrom | src/server.c:306-315 | the move that both use: the target has the event, the source is zeroed |
| Events.WindowGrows | src/server.c:261-266 | filling the first free slot appends to the queue, across the wrap |
| Events.WindowShrinks | src/server.c:284-290 | clearing the oldest slot and advancing drops the first, across the wrap |
| Events.UsedIsQueue | src/server.c:249-295 | adding and polling, as they change the slots, are the bounded queue's operations |
| Events.StepIsQueue | src/server.c:249-295 | each operation of a history is what the bounded queue does |
| Events.QueueIsBalanced | src/server.c:249-295 | for any producers and polls: polled events are a prefix of the accepted ones, the rest waits in order, at most 128 wait, and each offered event is accepted or rejected |
| Events.OrderIsKept | src/server.c:249-295 | each connection's events keep their order |
| Events.PolledInOrder | src/server.c:249-295 | what is polled of a connection's events are some of those it offered, in their order |
| Events.OfExact | src/server.c:249-295 | one connection's events among all are just those it is the producer of, as often and in the order in which they stand there |
| Delivery.ServeClient | src/connection.c:211-262 | a whole connection: what is polled of the events in its list are some of those the interpreter makes of its client's bytes, in their order, whatever other connections offered meanwhile |
| Events.OwnersKeptExact | src/server.c:249-315 | adding and polling keep the number of structures that own a buffer, among the slots, the producers' and the pollers' structures, exactly if the poller does not overwrite an owner |
| Events.OneOwner | src/server.c:249-315 | through any sequence of adding and polling a cut text's buffer keeps exactly one owner |
| Events.UnclearedCounterexample | src/server.c:306-315 | without the clearing a buffer would have two owners |
| Colorspaces.ToRgb | libwebcam/colorspace.c:145-520 | one line decoded pixel by pixel, and the bytes it took |
| Colorspaces.FromRgb | libwebcam/colorspace.c:152-520 | one line encoded pixel by pixel, and the bytes written; all other bytes keep their value |
| Colorspaces.ConvertLines | libwebcam/colorspace.c:109-121 | the loop over the lines with its running offsets writes what converting the whole image in one go would |
| Colorspaces.ConvertImage | libwebcam/colorspace.c:51-135 | every return value, the size reported, in 32-bit arithmetic, and the converted image; asks that the counts have not wrapped round only when pixels are written |
| Colorspaces.SizeExact | libwebcam/colorspace.c:140-493 | the counted size has room for the image exactly if the count does not wrap round |
| Colorspaces.SizeCounterexample | libwebcam/colorspace.c:140-493 | 65536 by 65536 pixels are counted as none |
| Colorspaces.LineConverted | libwebcam/colorspace.c:116-119 | one more line extends the conversion by that line's |
| Colorspaces.FromColoursConcat | libwebcam/colorspace.c:109-131 | images can be encoded in parts |
| Colorspaces.ToColoursConcat | libwebcam/colorspace.c:109-131 | images can be decoded in parts |
| ColourFormats.DecodedChannels | libwebcam/colorspace.c:168-403 | how each packed format is read, as the header draws it: each channel is its field of the pixel's word, lifted to the top of eight bits with zeros below, but green of RGB565 without its lowest bit; any 24-bit colour but black is 1 |
| ColourFormats.EncodedChannels | libwebcam/colorspace.c:182-403 | how each is written: each field holds the highest bits of its channel and there are no other bits; the bytes of the 24-bit formats are the channels in order |
| ColourFormats.GreyEncoded | libwebcam/colorspace.c:415-428 | grey leaves as its own luma, with chroma bytes of 64 |
| ColourFormats.GreyDecodedExact | libwebcam/colorspace.c:440-446 | a pixel comes in as grey of its own luma exactly if both chroma bytes are 0 |
| ColourFormats.GrayIsNeverGrey | libwebcam/colorspace.c:496-507 | so that GRAY, which is read with chroma bytes of 128, never comes in as grey |
| ColourFormats.PrimariesEncoded | libwebcam/colorspace.c:415-428 | the luma and chroma bytes of full red, green and blue |
| ColourFormats.TintsDecoded | libwebcam/colorspace.c:440-446 | what two pixels with one of the two chroma bytes set are read as |
| Agreement.DirectPathAgrees | libwebcam/colorspace.c:101-107 | the direct path that is never taken would write the same bytes |
| Agreement.PixelRoundTripExact | libwebcam/colorspace.c:168-403 | a packed pixel comes back from RGB32 exactly if `Survives` holds: always for RGB332, BGR233 and RGB32, with bit 15 clear for RGB555, with bit 5 clear for RGB565, and hardly ever for the 24-bit formats |
| Agreement.ImageRoundTripExact | libwebcam/colorspace.c:168-403 | an image comes back exactly if each of its pixels does |
| Agreement.ConvertedPixel | libwebcam/colorspace.c:51-135 | each pixel of a converted image is that pixel, decoded and encoded |
| Agreement.Meant565 | libwebcam/colorspace.c:289-320 | with the mask that is meant RGB565 loses nothing |
| Agreement.Meant24 | libwebcam/colorspace.c:168-236 | with the bitwise or the 24-bit formats lose nothing |
| Agreement.LibrariesAgree | libwebcam/colorspace.c:305-403 | encoding RGB32 words in BGR233 or RGB565 gives the bytes of those words re-packed to the built-in one- or two-byte layout |
| Agreement.MemoriesAgree | src/fb.c:251-257 | the pixel memory of a framebuffer of those layouts, after converting one of the RGB32 layout to it, is what the webcam library makes of that one's pixel memory |

## Left out

- Updates.UpdateAfterHistory: stated for formats whose channels are disjoint and fit the pixel, and for cut texts below 2^31 that find memory; what a session does with other formats is in `Sessions.Handle`, but their channels overlap or are cut off and show no colour.
- Updates.EveryUpdateIsServed: for worlds with memory and screens of fewer than 2^30 pixels, as any client may choose four-byte pixels; `Updates.UpdateAfterHistory` has no such limit.
- Connections.Connection.Run: stops, with outcome `Wrapped`, where the count of an update's bytes wraps round; what C does next (write past its memory, or cut the payload short) is not modelled.
- Colour maps: the true-colour flag of a format is kept and has no effect, as in the source, which has no SetColourMapEntries.
- Framebuffers.Framebuffer.Repaint: the two framebuffers are different objects with different memory, as at the only call.
- Colorspaces.ToRgb: the values of YUV and GRAY are the literal 32-bit formulas; of their colours only grey and the primary ones are looked at.
- Shifts by 32 or more, which a client may ask for and C leaves undefined, give 0.
- A size is 64 bits wide; on a 32-bit host long cut texts would fail differently.
- Allocation is one flag for each message or call; mutexes and threads are always created.
- The framebuffer's size for ServerInit is read without its lock in the source; it is a parameter of `Run`.
- The rejection of a cut text by a full event queue is ignored by its handler in the source, so its buffer leaks; its owner stays the producer's structure.
- A connection keeps its own list of the events it offers; that other connections fill the ring meanwhile is in `Events.Play`.
- The reaper's class finds each connection's word once; the interleaving of words and reaping is in the lifecycle.
- Fairness never forces a client to fail, an application to launch or to stop, or a busy connection to end.
- Sockets, select, name lookup, bind, accept, sleeps, logging and client names.
- The vendored threading wrappers: a section under a lock is one step, and a join is enabled once the thread has finished.
- V4L2 capture and its floating-point conversion, the demo programs and the application's drawing.
- The YUV422 converter, which overwrites its own bytes, and JPEG, which has no converter.
- `trfb_framebuffer_create_with_data`, which never sets the size, and the flag that says who owns pixel memory.
- The counter of updates, and `trfb_server_set_socket`.
- The truncated value of `trfb_connection_read_u32`, which is only logged; its four bytes are consumed.
- The checks of a framebuffer's pixel size that cannot fail for framebuffers the functions above create, and null arguments.
- The send and receive loops of `src/protocol.c`, which no core function calls.
