# myi3status: nl80211 client and readiness loop

A Dafny model of two parts of myi3status, an i3bar status generator:

- **The nl80211 client** (`nl80211.dfy`, module `Wireless`, and `ies.dfy`,
  module `InfoElements`).
  - The attribute handlers fill the caller's `InterfaceInfo` snapshot in place.
    The snapshot is a class with the three fixed-size buffers as arrays.
  - The information-element walk copies the SSID and builds its printable-safe
    copy.
  - `get_interface_info` runs in two phases: a scan dump, then a
    station-statistics request keyed by the BSSID it found.
  - Multicast events fan out to the registered listeners.
- **The readiness loop** (`event_loop.dfy`, module `Readiness`).
  - Widgets are registered for rendering, and descriptors are armed for
    readiness.
  - Each wake of the loop runs the ready handlers in event order, then writes
    one `[...],` record of the non-empty widget texts.
  - `run` writes the header once, then one record per wake that had events.

Every state-changing operation is a method. Its contract ties the new state to
a function of the old state and the inputs (`Snapshot()`, `Record`,
`RunOutput`, `Fanout`, `Drain`, `Query`). The lemmas prove properties of those
functions:

- decoding the element stream is the inverse of encoding it;
- the walk consumes only whole elements;
- the last SSID element decides the SSID;
- the last qualifying scan entry decides the BSSID;
- the query sends requests in a fixed order;
- every listener gets every event;
- a record splits back into the texts it shows;
- `run` writes exactly one record per busy wake.

The netlink transport is replaced by what it hands the handlers: messages
already split into the attributes the handlers read (`BssAttrs`, `StaAttrs`,
`RateInfo`), and whether each receive call succeeded. The kernel readiness wait
is replaced by the batches of ready descriptors it returns (`Wakeup`). Each
widget's `get_string()` is replaced by the text it yields at that wake
(`Render`). Standard output is the `out` field of `EventLoop`.

Two behaviours of the code are easy to misread, and the model follows the
code in both:

- **Which scan entry wins.** A scan dump can hold several entries with a
  status and a BSSID. `handle_info_bss` does not stop at the first of them:
  it has no "already connected" guard, so each later qualifying entry
  overwrites the MAC and the SSID, and the last one wins.
  `Wireless.LastQualifyingBssWins` states this.
- **Failed receives.** `get_interface_info` returns nothing to its caller, so
  a failed receive is never reported as a failed query. A failed scan receive
  only prints a diagnostic and returns (`ScanFailed`). A failed station
  receive fails an assertion, which terminates the process (`Aborted`). In
  both cases the messages handled before the failure stay applied.

## Model

| member | source | states |
|---|---|---|
| InfoElements.Elements | src/nl80211.cpp:34-57 | the elements the walk visits, front to back, up to the first incomplete element; every value fits a one-octet length field |
| InfoElements.ElementsOfEncode | src/nl80211.cpp:34-57 | decoding the encoding of any list of elements gives the list back |
| InfoElements.ElementsCoverPrefix | src/nl80211.cpp:36-55 | the walk consumes a prefix of the buffer that is exactly the encoding of the elements it visited, and the tail it stops at holds no complete element, so no octet past the end is needed |
| InfoElements.Filtered | src/nl80211.cpp:44-50 | same length as the SSID; each octet that is printable and not a double quote is kept; every other octet becomes '?'; the result is all displayable |
| InfoElements.FilteredIdempotent | src/nl80211.cpp:44-50 | filtering an already filtered SSID changes nothing |
| InfoElements.SizeSub | src/nl80211.cpp:54 | `length -= l + 2` on a 64-bit size_t: always below 2^64; exact when no underflow; when up to 2^64 octets too many are subtracted, the difference plus 2^64 |
| InfoElements.GuardAsWrittenAdmitsOverrun | src/nl80211.cpp:36 | the written guard admits every complete element, and admits exactly those incomplete elements whose value overruns the buffer by one or two octets |
| InfoElements.TruncatedTailUnderflows | src/nl80211.cpp:36-55 | on the stream 00 02 41 the written guard passes, the element needs four octets of three, the remaining count wraps to 2^64 - 1, and the complete-element walk finds nothing |
| Wireless.WalkElements | src/nl80211.cpp:34-57 | walking the elements changes only the SSID, its length and its filtered copy |
| Wireless.LastSsid | src/nl80211.cpp:40-51 | the SSID it picks is the value of an SSID element of the list |
| Wireless.LastSsidIsLast | src/nl80211.cpp:40-51 | nothing is picked exactly when no element is an SSID element; otherwise the pick is the value of an SSID element with no SSID element after it |
| Wireless.WalkWithoutSsid | src/nl80211.cpp:40-51 | with no SSID element the walk leaves the snapshot unchanged |
| Wireless.LastSsidWins | src/nl80211.cpp:40-51 | after the walk, the length, the SSID octets and the NUL-terminated filtered copy are those of the last SSID element |
| Wireless.StoreSsid | src/nl80211.cpp:40-51 | the value is copied over the front of `ssid`, `ssid_length` is its length, and its filtered copy and a NUL go over the front of `ssid_filtered`; later octets keep their old contents |
| Wireless.HandleElement | src/nl80211.cpp:37-51 | an SSID element is stored; an element of any other id changes nothing |
| Wireless.HandleInfoBssIes | src/nl80211.cpp:34-57 | the snapshot after the loop is the walk over the elements of the buffer, element by element |
| Wireless.BssEffect | src/nl80211.cpp:59-87 | an entry without status or BSSID changes nothing; a qualifying one sets connected and copies the BSSID into the MAC; signal and bitrates are kept; the buffers keep their sizes |
| Wireless.QualifyingBssEffect | src/nl80211.cpp:59-87 | after a qualifying entry, `ssid_length` is 0 when it has no SSID element; otherwise the last SSID element gives `ssid_length`, the SSID octets, and the filtered copy followed by a NUL |
| Wireless.HandleInfoBss | src/nl80211.cpp:59-87 | the snapshot after handle_info_bss: MAC copied, SSID length cleared, elements walked, connected set; unchanged for a non-qualifying entry |
| Wireless.Int8 | src/nl80211.cpp:113 | the `(int8_t)` cast: congruent to the octet modulo 256, and negative exactly when the octet is 128 or more |
| Wireless.GetBitrate | src/nl80211.cpp:89-99 | the rate container's 32-bit total bitrate, in units of 100 kbit/s and unconverted |
| Wireless.StaEffect | src/nl80211.cpp:101-122 | only signal and the two bitrates change; signal is the octet read as a signed 8-bit value, or 0 without the attribute; each bitrate is the container's 32-bit value, or 0 without the container |
| Wireless.HandleInfoSta | src/nl80211.cpp:89-122 | signal and both bitrates are reset to 0, then take the value of each attribute that is present; bitrates are the 32-bit value unconverted |
| Wireless.MessageEffect | src/nl80211.cpp:132-148 | the buffers keep their sizes (the definition applies the BSS effect, then the station effect, for the containers present) |
| Wireless.MessageEffectFields | src/nl80211.cpp:132-148 | the two containers write disjoint fields: connected, the MAC and the SSID fields are those the scan entry alone gives; signal and both bitrates are those the station-info container alone gives |
| Wireless.HandleInfo | src/nl80211.cpp:132-148 | the snapshot after handle_info is the BSS effect followed by the station effect |
| Wireless.Receive | src/nl80211.cpp:248 | the messages of one receive are applied in order, and the buffers keep their sizes |
| Wireless.ReceiveInto | src/nl80211.cpp:248 | handle_info runs on each message of a reply, in order |
| Wireless.LastQualifying | src/nl80211.cpp:69-86 | the entry it picks has a status and a BSSID |
| Wireless.LastQualifyingIsLast | src/nl80211.cpp:69-86 | nothing is picked exactly when no message carries a qualifying entry; otherwise the pick is the entry of a message with no qualifying entry after it |
| Wireless.NoQualifyingKeepsBss | src/nl80211.cpp:69-86 | a reply with no qualifying entry leaves connected, the MAC and all SSID fields as they were |
| Wireless.LastQualifyingBssWins | src/nl80211.cpp:69-86 | after a reply the snapshot is connected exactly when it already was or some entry qualifies; the MAC and the SSID fields (`ssid_length`, the SSID octets, the NUL-terminated filtered copy) are those of the last qualifying entry, or unchanged if none |
| Wireless.Query | src/nl80211.cpp:222-276 | no request is sent exactly when the interface index is 0; the first request is always the scan dump for that index; a second request, the station query, is sent exactly when the station phase was reached; an outcome of "not associated" leaves the snapshot disconnected |
| Wireless.QueryRequests | src/nl80211.cpp:222-276 | unknown interface: no request, not connected; failed scan receive: the scan request only; no qualifying entry: the scan request only, not connected; otherwise the scan request then a station request for the same index and the last qualifying BSSID, which completes exactly when the station receive succeeds |
| Wireless.Nl80211.GetInterfaceInfo | src/nl80211.cpp:222-276 | the snapshot, outcome and requests sent are those of the two-phase query |
| Wireless.Fanout | src/nl80211.cpp:278-282 | one delivery per listener, in listener order, each carrying the unchanged message |
| Wireless.Drain | src/nl80211.cpp:217-220 | a batch of messages gives one delivery per listener per message |
| Wireless.DrainDelivers | src/nl80211.cpp:217-220 | delivery number k * (number of listeners) + i is message k handed to listener i |
| Wireless.Nl80211.constructor | src/nl80211.cpp:150-153 | a new client has no listeners and has delivered nothing |
| Wireless.Nl80211.AddListener | src/nl80211.cpp:284-286 | the listener is appended; nothing is delivered |
| Wireless.Nl80211.HandleEvent | src/nl80211.cpp:278-282 | the message is delivered once to each listener in registration order; the listener list is unchanged |
| Wireless.Nl80211.DescriptorReady | src/nl80211.cpp:217-220 | every message of the batch goes through handle_event, in arrival order |
| Readiness.Texts | src/event_loop.cpp:45-46 | one text per widget, in registration order |
| Readiness.SplitJoin | src/event_loop.cpp:50-56 | splitting the comma-joined texts at commas gives the texts back, when no text contains a comma |
| Readiness.JoinSeparators | src/event_loop.cpp:50-56 | n texts are joined with exactly n - 1 commas, none before the first text or after the last |
| Readiness.Record | src/event_loop.cpp:42-60 | a record is at least four characters long, starts with '[' and ends with "],\n" |
| Readiness.RecordFields | src/event_loop.cpp:42-60 | when no shown text contains a comma, the part between '[' and "],\n" splits back into exactly the shown texts in registration order; with no shown text the record is "[],\n" |
| Readiness.ShownTextsAppend | src/event_loop.cpp:45-56 | the shown texts of two runs of widgets are those of the first run followed by those of the second |
| Readiness.EmptyWidgetSkipped | src/event_loop.cpp:48 | a widget with no text or an empty text, at any position, adds neither a text nor a comma: the record equals the record of the other widgets |
| Readiness.EmptyWidgetExample | src/event_loop.cpp:48 | a widget rendering "A" next to one rendering an empty text or null gives the record "[A],\n" |
| Readiness.ReadyCalls | src/event_loop.cpp:29-32 | one descriptor_ready call per reported event, in event order, on the widget armed for that descriptor |
| Readiness.RenderCallsInOrder | src/event_loop.cpp:45-46 | a record asks every widget for its text exactly once, in registration order |
| Readiness.WakeOutput | src/event_loop.cpp:34-36 | a wake writes nothing exactly when its batch is empty; otherwise it writes one framed record |
| Readiness.WakeCalls | src/event_loop.cpp:27-36 | the calls of one wake: one descriptor_ready per event, in event order, on the armed widget, then, only if there was an event, one get_string per widget in registration order |
| Readiness.RunOutput | src/event_loop.cpp:20-40 | the records of a sequence of wakes: empty exactly when no wake had an event, and at least four characters per wake that had one |
| Readiness.WakeNewlines | src/event_loop.cpp:34-36 | a wake of single-line texts ends one line when it had an event and none otherwise |
| Readiness.RecordNewlines | src/event_loop.cpp:42-58 | a record of single-line texts holds exactly one newline |
| Readiness.OneRecordPerBusyWake | src/event_loop.cpp:26-37 | when no widget text contains a newline, the output after the header holds one line per wake that had an event, and none for an empty wake |
| Readiness.EventLoop.constructor | src/event_loop.cpp:15-18 | a new loop has no widgets, no armed descriptors and no output |
| Readiness.EventLoop.AddWidget | src/event_loop.cpp:62-64 | the widget is appended to the render list; nothing else changes |
| Readiness.EventLoop.AddFd | src/event_loop.cpp:66-76 | the descriptor is armed on behalf of the widget; nothing else changes |
| Readiness.EventLoop.PrintStuff | src/event_loop.cpp:42-60 | writes exactly the record of the widgets' current texts and asks each widget for its text once, in order |
| Readiness.EventLoop.Wake | src/event_loop.cpp:27-36 | runs the ready handlers in event order, then writes a record if and only if the batch was not empty |
| Readiness.EventLoop.Run | src/event_loop.cpp:20-40 | writes the header once, then the output of each wake in turn |

## Left out

- Socket setup is left out: creating the sockets and callbacks, the buffer
  sizes, joining the multicast groups, resolving the nl80211 family, and the
  destructor. Each is environment setup whose failure aborts, so the model
  takes it as succeeded.
- `nla_parse`, `nla_parse_nested` and the attribute policies are left out.
  The handlers receive attributes already parsed into `BssAttrs`, `StaAttrs`
  and `RateInfo`. What the handlers take for granted about the parse results
  becomes the `WellFormed` preconditions:
  - a 6-octet BSSID, which the copy into the MAC assumes;
  - a rate container that carries its 32-bit bitrate: `get_bitrate` reads
    `NL80211_RATE_INFO_BITRATE32` without checking that it is present
    (src/nl80211.cpp:98), so a container without it is a null dereference,
    which the model does not represent;
  - SSID elements shorter than the buffers.
- SSID buffer size: nl80211.h is not part of this model. The size of `ssid` and
  `ssid_filtered` is taken as 33 octets, and an SSID element must be shorter
  than that, because the code copies it without a bound check.
- `if_nametoindex`, message allocation and sending are given as the resolved
  index and the replies. So is the `nla_put_failure` path, which cannot be
  reached once allocation succeeds.
- `Wireless.Nl80211.DescriptorReady`: the event messages are raw octets handed
  on unchanged. A failed event receive, which aborts, is not modelled.
- `Wireless.Nl80211.GetInterfaceInfo`: a failed station receive is the outcome
  `Aborted`, with the messages received before it applied. The process
  termination itself is not modelled.
- `epoll_create1`, `epoll_ctl` and `epoll_wait` are given as armed descriptors
  and returned batches. An `epoll_wait` error returns -1 and behaves like an
  empty batch, so it is modelled as one.
- `fflush` and the diagnostics written to standard error are left out.
- `Readiness.EventLoop.Run` states the output; it does not state the calls on
  widgets across wakes. `Readiness.EventLoop.Wake` states them for one wake.
- The closing `"]\n"` after `run`'s endless loop is never written, so it is not
  modelled.
- What a widget's `descriptor_ready` does to its own state is not modelled.
  Each wake instead carries the texts the widgets yield afterwards.
- src/timer.h and src/widget_time.h are not part of this model.

## Findings

| source | as written | input that shows it | evidently intended | confidence | as-written member | corrected member |
|---|---|---|---|---|---|---|
| src/nl80211.cpp:36 | the walk continues while `length >= 2 && length >= data[1]`, comparing the remaining count with the value length alone | the element stream `00 02 41` (3 octets): the guard passes, the SSID copy reads 2 value octets of which only 1 exists, and `length -= 4` wraps to 2^64 - 1 so the walk goes on past the end | continue only while the whole element fits: `data[1] + 2 <= length` | not executed | InfoElements.TruncatedTailUnderflows | InfoElements.ElementsCoverPrefix |
