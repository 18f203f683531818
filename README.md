# raymob soft-keyboard bridge, modelled in Dafny

raymob's `features.c` gives a native game access to Android device
features. Each function forwards one call to a managed "features" object
through JNI. Almost all of them are plain forwarding. Two pieces hold real
logic, and this project models and proves them:

- **Key translation** (`GetLastSoftKeyChar`). It turns the provider's last
  key event into a single C `char`. Key code 0 gives NUL. ENTER (66) gives
  `'\n'` and DEL (67) gives `'\b'`. Any other key gives `'?'` when its Unicode
  value is above 0xFF, and otherwise the value cast to `char`. The cast keeps
  the low eight bits, so a negative value also passes the guard and is
  truncated. With no provider the result is NUL.
- **Text-field editing** (`SoftKeyboardEditText`). It applies that character
  to a caller-owned, NUL-terminated `char` buffer of capacity `size`. NUL
  does nothing and does not consume the key. Backspace removes the last
  character if there is one. Any other character is appended only while
  `strlen < size`. Every non-NUL path then clears the key.

Files:

- `cstring.dfy` (module `CString`): C strings as byte sequences. `byte` is
  one C `char`. `StrLen` is `strlen`, the index of the first NUL. `Text` is
  the string held in the buffer.
- `features.dfy` (module `Features`):
  - `KeyChar` is the translation as a function, with its lemmas.
  - `Edited` is the buffer after one edit, as a function on the buffer's
    bytes, with its lemmas.
  - The class `Provider` stands for the managed feature provider. It has
    `present` (the instance is not null), `lastKeyCode` and `lastKeyUnicode`
    (what the Java getters return), and two ghost counters. `clears` counts
    clears of the key state. `attachDepth` counts thread attachments that
    are still held.
  - The bridge methods `GetLastSoftKeyCode`, `GetLastSoftKeyUnicode`,
    `GetLastSoftKeyChar` and `ClearLastSoftKey` attach, read or clear, and
    detach. Each is proved to leave `attachDepth` as it found it.
  - The method `SoftKeyboardEditText` edits an `array<byte>` in place. It is
    proved against `Edited` and `KeyChar`.

Java `int` values are the newtype `int32`. The capacity is the C
`unsigned int` newtype `uint32`.

## Model

| member | source | states |
|---|---|---|
| `CString.StrLen` | app/src/main/cpp/deps/raymob/features.c:324 | the length `strlen` reports is the index of the first NUL: that cell is NUL and every cell before it is not |
| `CString.Text` | app/src/main/cpp/deps/raymob/features.c:324 | the string held in a buffer contains no NUL, is shorter than the buffer, and is followed by the terminator |
| `CString.StrLenIsFirstNul` | app/src/main/cpp/deps/raymob/features.c:324 | any NUL preceded only by non-NUL cells is exactly where `strlen` stops |
| `Features.KeyChar` | app/src/main/cpp/deps/raymob/features.c:264-302 | the translated character is NUL exactly when there is no provider, the key code is 0, or an ordinary key's value is at most 0xFF with a zero low byte (a Unicode value of 0 among them) |
| `Features.KeyCharNoEvent` | app/src/main/cpp/deps/raymob/features.c:264-302 | with no provider, or with key code 0, the translated character is NUL |
| `Features.KeyCharEnterDel` | app/src/main/cpp/deps/raymob/features.c:261-286 | key code 66 gives `'\n'` and key code 67 gives `'\b'`, whatever the Unicode value |
| `Features.KeyCharOther` | app/src/main/cpp/deps/raymob/features.c:288-292 | any other nonzero key code gives `'?'` for a Unicode value above 0xFF, and otherwise the value's low byte |
| `Features.KeyCharLatin1RoundTrip` | app/src/main/cpp/deps/raymob/features.c:288-292 | an ordinary key whose Unicode value is a byte's value gives that byte back |
| `Features.Edited` | app/src/main/cpp/deps/raymob/features.c:319-337 | an edit keeps the buffer's size and leaves it NUL-terminated |
| `Features.WellFormedIsEditable` | app/src/main/cpp/deps/raymob/features.c:324-334 | a buffer of `size + 1` cells holding at most `size` characters meets what the edit needs: a terminator, and room for a character plus terminator while `strlen < size` |
| `Features.EditedNul` | app/src/main/cpp/deps/raymob/features.c:321-322 | the NUL character leaves every cell unchanged |
| `Features.EditedBackspace` | app/src/main/cpp/deps/raymob/features.c:326-329 | backspace on a nonempty string shortens it by exactly one, drops its last character, and writes no other cell |
| `Features.EditedBackspaceEmpty` | app/src/main/cpp/deps/raymob/features.c:326-334 | backspace on an empty string leaves the buffer unchanged |
| `Features.EditedAppend` | app/src/main/cpp/deps/raymob/features.c:330-334 | any other character with `strlen < size` lands at the old length, the string grows by exactly one, and the new length is at most `size` |
| `Features.EditedFrame` | app/src/main/cpp/deps/raymob/features.c:326-334 | an edit writes no cell except the one before, at or after the old terminator |
| `Features.EditedFull` | app/src/main/cpp/deps/raymob/features.c:330-334 | with `strlen >= size`, a non-backspace character is dropped and the buffer is unchanged |
| `Features.EditedText` | app/src/main/cpp/deps/raymob/features.c:321-334 | on strings alone: NUL keeps the text, backspace drops its last character if any, another character is appended while the text is shorter than `size` and dropped otherwise |
| `Features.EditedKeepsWellFormed` | app/src/main/cpp/deps/raymob/features.c:324-334 | if the initial length is at most `size` in a buffer of `size + 1` cells, the final length is at most `size` and no cell above index `size` is written |
| `Features.TypeThenErase` | app/src/main/cpp/deps/raymob/features.c:326-334 | appending a character and then handling backspace gives back the original text |
| `Features.EditedExamples` | app/src/main/cpp/deps/raymob/features.c:319-337 | "ab" with capacity 5 stays "ab" on NUL, becomes "abc" on 'c' and "a" on backspace; a full "abcde" drops 'f' |
| `Features.Provider.Attach` | app/src/main/cpp/deps/raymob/features.c:270 | attaching the thread raises the count of held attachments by one |
| `Features.Provider.Detach` | app/src/main/cpp/deps/raymob/features.c:297 | detaching needs a held attachment and lowers the count by one |
| `Features.Provider.GetLastSoftKeyCode` | app/src/main/cpp/deps/raymob/features.c:205-221 | returns the provider's last key code, or 0 with no provider; attachments are balanced |
| `Features.Provider.GetLastSoftKeyUnicode` | app/src/main/cpp/deps/raymob/features.c:241-257 | returns the provider's last Unicode value, or 0 with no provider; attachments are balanced |
| `Features.Provider.GetLastSoftKeyChar` | app/src/main/cpp/deps/raymob/features.c:259-303 | returns `KeyChar` of the provider state; it changes neither the key fields nor the clear count, and every path detaches as often as it attaches |
| `Features.Provider.ClearLastSoftKey` | app/src/main/cpp/deps/raymob/features.c:305-317 | exactly one clear happens when the provider is present; with no provider nothing changes; attachments are balanced |
| `Features.PollTwice` | app/src/main/cpp/deps/raymob/features.c:259-303 | reading the last key twice with no clear in between gives the same character |
| `Features.SoftKeyboardEditText` | app/src/main/cpp/deps/raymob/features.c:319-337 | the buffer becomes `Edited` of its old bytes, the capacity and the translated key. The key is cleared exactly once when that key is not NUL. When it is NUL, the key fields and the clear count stay as they were |

## Left out

- The JNI plumbing in every function: `GetObjectClass`, `GetMethodID`, the `Call*Method` calls, and the runtime behind them. They are foreign calls into the Java runtime. They become plain reads of the `Provider` fields and updates of its ghost counters. `AttachCurrentThread`/`DetachCurrentThread` remain only as the ghost `attachDepth` counter.
- `Features.Provider.ClearLastSoftKey`: says nothing about the key fields after a clear with the provider present. The managed `clearLastKeyEvent` is not part of this model, so its effect on what the getters return later is unknown.
- `Vibrate`, `Start/StopAccelerometerListening`, `Show/HideSoftKeyboard`, `IsSoftKeyboardActive` and `KeepScreenOn`: each is a single forwarded call that is a no-op with no provider, with no logic of its own.
- `GetAccelerometerAxis` and `GetAccelerometerX/Y/Z`: floating-point sensor values read from the device.
- `GetLastSoftKeyLabel`: a pass-through `jchar` getter that neither modelled operation uses.
- `getL10NString`: `malloc` plus JNI string conversion and release, which is foreign memory and runtime. It returns a static `""` with no provider but a heap buffer otherwise, so callers cannot free every result the same way. That ownership mismatch is about memory, which this model does not capture.
- `Features.SoftKeyboardEditText`: takes `strlen`'s result as exact. The source stores it in an `unsigned int`, which would wrap for strings of 4 GiB or more. Such buffers are out of scope.
- `Features.SoftKeyboardEditText`: asks for the terminator, and for room at `strlen` and `strlen + 1` while `strlen < size`, whatever the key. The source needs less: on a NUL key it returns before `strlen` and needs no terminator, and on backspace it needs no append room. A caller cannot know the key in advance, so a buffer of `size + 1` cells holding at most `size` characters is the practical requirement, and it meets this one (`WellFormedIsEditable`).
- Concurrency: calls from several threads at once are not modelled. The source adds no locking, and the model is sequential.
