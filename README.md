# PasswordManager_CA: the persistence pipeline, modelled in Dafny

The model covers the core of a console password manager. This core has four parts:

- a hex "encryption" codec, `HEXEncryption`. It is Base 16 as in section 8 of RFC 4648: upper-case output, and input accepted in either case.
- a record store, `CustomIO::SaveToFile` and `LoadFromFile`. It writes one line per credential, `hex(app) "|" hex(pass) "\n"`, and reads such files back.
- the `PasswordManager` class. It holds a credential map and a dirty flag (`m_HasUpdated`). It also has the operations add, delete, view and commit.
- the terminal message buffer, `CustomTerminal`. The manager reports every outcome through it.

Files, one module each:

- `text.dfy` (`Text`): `Char8`/`Str` model a C++ `std::string` as characters below 256. It also has `Option`, `std::string::find` (`Find`), `append(n, c)` (`Repeat`), and enumerations of a map. An enumeration is one possible iteration order of an `unordered_map`.
- `hex.dfy` (`HexE`): the spec functions `HexEncode`/`HexDecode` with their laws. Also the class `HexEncryption`, whose `Encrypt`/`Decrypt` methods fill an array buffer in a loop, as the C++ does, and are proved equal to those functions.
- `custom_io.dfy` (`CustomIO`): `GetSavePath`, the line reader, the loader as a function over the file text, and the serialiser. Also the methods `SaveToFile` (a loop over the map's keys) and `LoadFromFile` (the `getline` loop), and the round-trip theorem.
- `custom_terminal.dfy` (`CustomTerminal`): the class `Terminal` with its `buffer: seq<string>`.
- `password_manager.dfy` (`Manager`): the class `PasswordManager`, with the fields `dataMap` and `hasUpdated`.

How the environment is modelled:

- A file is a value. `Option<Str>` is what a read sees: `None` means that the file cannot be opened.
- Whether the file can be opened for writing is the boolean parameter `writable`.
- `SaveToFile` returns the file's new contents: its old contents when the open fails, and exactly the records when it succeeds. This matches the truncating open, which discards whatever was there before.
- The working directory is a parameter of `GetSavePath`.
- The iteration order of `unordered_map` is unspecified. `SaveToFile` and `ViewPasswords` therefore pick the next key with `:|` and return the order they used as a ghost result. The round-trip theorem holds for every such order.
- The static `BUFFER` is a `Terminal` object, handed to each manager method.
- Buffer messages are plain `string`s. The byte strings of the store are a subtype of `string`, so they fit into messages.

The model follows the C++ code in these places:

- `decrypt` validates nothing. On odd-length input it reads the string's terminating `'\0'` as the last low digit and writes one byte past its buffer. On a character that is not a hex digit it computes a meaningless byte (for example, `G` gives the nibble 16), or has undefined behaviour: a non-digit below `7` as the first digit of a pair gives a negative value that is then shifted left, and, where `char` is signed, a byte of 128 or more reaches `std::isdigit`/`std::toupper` as a negative value. The model therefore makes "even length, all hex digits" (`IsHexText`) a precondition instead of returning a decode error. `Load` inherits that precondition as `WellFormed`: every line that contains `|` must have hex text on both sides. Lines without `|` may hold anything.
- Load does not skip lines that fail to decode: the code has no such check.
- `CommitData` never clears the dirty flag.
- A failed save adds two messages, the "problem" one and then the "No changes" one, because the failure branch falls through.
- `ViewPasswords` does not return a listing. It appends messages to the buffer.
- The model follows the `.cpp` definitions of `SaveToFile(const IEncryption&)` and `LoadFromFile` that returns the map. The declarations in `include/custom_io.h:89,102` are an older version.

## Model

| member | source | states |
|---|---|---|
| HexE.EncodeByte | src/HexE.cpp:31-33 | the two output characters of one byte, `hexDigits[c >> 4]` then `hexDigits[c & 0x0F]`; its content is stated by EncodeByteDecodes and HexEncodeAt |
| HexE.HexEncode | src/HexE.cpp:22-37 | the encoding of `s` is exactly twice as long as `s`; the empty string encodes to the empty string |
| HexE.HexEncodeAlphabet | src/HexE.cpp:26-34 | every encoded character is one of `0-9A-F`, so the output is valid decoder input and contains neither the record delimiter (a vertical bar) nor a line break; upper-casing it changes nothing |
| HexE.HexEncodeAt | src/HexE.cpp:31-34 | output positions 2i and 2i+1 are the hex digits of `s[i] >> 4` and `s[i] & 0x0F`: high nibble first |
| HexE.HexEncodeConcat | src/HexE.cpp:31-34 | encoding distributes over concatenation: `enc(a + b) == enc(a) + enc(b)` |
| HexE.HexValue | src/HexE.cpp:49-50 | the value computed for a hex digit of either case is below 16, and it is the position of that digit's upper-case form in `0123456789ABCDEF` |
| HexE.ToUpper | src/HexE.cpp:49-50 | `std::toupper`: a lower-case letter becomes the upper-case letter at the same position of the alphabet; the result is never a lower-case letter; it differs from the input exactly when the input is a lower-case letter; and it is an upper-case letter exactly when the input is a letter of either case |
| HexE.EncodeByteDecodes | src/HexE.cpp:31-33 | one byte becomes exactly two upper-case hex digits, high nibble first, and decoding those two digits gives the byte back |
| HexE.DecodePairEncodes | src/HexE.cpp:49-51 | `(highValue << 4) or lowValue`: the decoded byte's high nibble is the value of the first digit and its low nibble the value of the second, so encoding the byte gives the two digits in upper case |
| HexE.DecodePair | src/HexE.cpp:49-51 | one decoded byte, `(highValue << 4) or lowValue`; its content is stated by DecodePairEncodes and HexDecodeAt |
| HexE.HexDecode | src/HexE.cpp:43-52 | on valid input (even length, hex digits only), the decoded text is half as long as the input |
| HexE.HexDecodeAt | src/HexE.cpp:46-52 | decoded byte j comes from input characters 2j (high nibble) and 2j+1 (low nibble) |
| HexE.DecodeEncode | src/HexE.cpp:22-55 | round trip: `decrypt(encrypt(s)) == s` for every byte string, the empty one and every byte value 0-255 included |
| HexE.EncodeDecode | src/HexE.cpp:39-55 | the other direction: re-encoding decoded text gives the input upper-cased, so the only thing decoding loses is the case of letters |
| HexE.DecodeCaseInsensitive | src/HexE.cpp:49-50 | `a`-`f` decode exactly like `A`-`F`: decoding the upper-cased input gives the same bytes |
| HexE.HexEncryption.Encrypt | src/HexE.cpp:22-37 | the buffer-filling loop returns exactly `HexEncode(input)` |
| HexE.HexEncryption.Decrypt | src/HexE.cpp:39-55 | the loop that steps two characters at a time returns exactly `HexDecode(input)`; it requires even-length, all-hex input |
| Text.Repeat | src/custom_terminal.cpp:41 | `append(n, c)`: exactly n characters, each equal to c |
| Text.Flatten | src/custom_terminal.cpp:33-35 | the text the printing loop shows, every message in order; stated by Terminal.PrintAndClearBuffer and FlattenConcat |
| Text.Find | src/custom_io.cpp:100-101 | `line.find`: None exactly when the character is absent; otherwise the position of its first occurrence |
| Text.EnumerationLength | src/custom_io.cpp:82 | an iteration order that visits every key exactly once is as long as the map is large |
| CustomIO.PathJoin | src/custom_io.cpp:75 | `path::operator/` on POSIX: the result ends in the name; an absolute name replaces the directory; otherwise the result starts with the directory, and exactly one '/' is put in between when the directory is non-empty and does not already end in '/', and nothing otherwise |
| CustomIO.GetSavePath | src/custom_io.cpp:74-76 | the path ends in `filename + ".pwdb"`; it is exactly `filename + ".pwdb"` for an absolute name, `cwd + "/" + filename + ".pwdb"` when the working directory is non-empty and does not end in '/', and `cwd + filename + ".pwdb"` otherwise |
| CustomIO.ReadLine | src/custom_io.cpp:99 | `getline`: the line holds no line break and is followed by one, or is the last text of the file; the rest is shorter |
| CustomIO.ParseLine | src/custom_io.cpp:100-104 | one pass of the loop: a line without a delimiter leaves the map as it is; otherwise the map gains exactly the line's decoded key, that key maps to the decoded text after the first delimiter, and every other entry keeps its value |
| CustomIO.LoadLines | src/custom_io.cpp:99-104 | the map the `getline` loop builds from a text over a starting map; stated by LoadFromFile, LoadKeys, LoadConcat, LoadSkipsLineWithoutDelimiter, LoadSplitsAtDelimiter, LoadLineAfter and LoadLastLineWins |
| CustomIO.LoadKeys | src/custom_io.cpp:99-104 | the loaded map's keys are the starting keys plus the decoded keys of the delimited lines, and a starting entry that no line sets keeps its value |
| CustomIO.Load | src/custom_io.cpp:92-110 | the value of `LoadFromFile`: the empty map when the file cannot be opened, otherwise a map whose keys are exactly the decoded keys of the file's delimited lines |
| CustomIO.LoadSkipsLineWithoutDelimiter | src/custom_io.cpp:99-101 | a line that contains no delimiter is skipped and adds no entry, whether a line break follows it or it is the last text of the file |
| CustomIO.LoadSplitsAtDelimiter | src/custom_io.cpp:99-104 | a line is split at its first delimiter; the decoded left part becomes the key and the decoded remainder its value, replacing any earlier value of that key; this holds whether a line break follows the line or it is the last text of the file |
| CustomIO.LoadConcat | src/custom_io.cpp:99-104 | the loop reads line by line: loading whole lines `a` followed by any text `b` is loading `a`, then loading `b` over the result |
| CustomIO.LoadLineAfter | src/custom_io.cpp:99-104 | a delimited line anywhere in the file, after any whole lines `pre`, puts its decoded pair over the map that `pre` loads |
| CustomIO.LoadLastLineWins | src/custom_io.cpp:99-104 | when two lines decode to the same key, the later line's value is what the loaded map holds, whatever lines lie before and between them, unless a line after both sets that key again |
| CustomIO.Record | src/custom_io.cpp:83 | one saved line, the encoded name, the delimiter, the encoded password and a line break; stated by RecordShape and LoadSplitsAtDelimiter |
| CustomIO.Serialize | src/custom_io.cpp:82-83 | the records in visiting order; stated by SaveToFile, SerializeAppend, SerializeTerminated and LoadSerialized |
| CustomIO.RecordShape | src/custom_io.cpp:83 | one saved record is twice the name length plus twice the password length plus 2 characters long, is a single line ending in a line break, and its first delimiter comes right after the encoded name, so the loader splits it where the saver joined it |
| CustomIO.SerializeTerminated | src/custom_io.cpp:82-83 | the saved text is whole lines, and it is empty exactly when no key is visited |
| CustomIO.LoadSerialized | src/custom_io.cpp:83-104 | loading saved records puts exactly the saved entries over whatever map the loader started from |
| CustomIO.SaveLoadRoundTrip | src/custom_io.cpp:82-104 | `Load(Save(m)) == m` for every map and every iteration order; the saved text is always loadable |
| CustomIO.SaveToFile | src/custom_io.cpp:78-90 | if the file opens, it returns true and the file then holds exactly one record (enc(app), the delimiter, enc(pass), a line break) per entry, in a key order that visits each entry once; earlier contents are discarded. Otherwise it returns false and writes nothing |
| CustomIO.LoadFromFile | src/custom_io.cpp:92-110 | the `getline` loop builds exactly `Load(file)`; a file that cannot be opened gives the empty map |
| CustomTerminal.WithLineBreaks | src/custom_terminal.cpp:39-42 | the stored message is the message followed by `lineBreakCount` line breaks when the count is above 0, and the message unchanged otherwise |
| CustomTerminal.FlattenConcat | src/custom_terminal.cpp:32-36 | printing two buffers one after the other shows the same text as printing them as one buffer |
| CustomTerminal.Terminal.constructor | src/custom_terminal.cpp:22 | the buffer starts empty |
| CustomTerminal.Terminal.AddMessageToBuffer | src/custom_terminal.cpp:39-45 | the buffer grows by exactly one entry, appended at the end; the entries already there are unchanged and keep their order |
| CustomTerminal.Terminal.PrintAndClearBuffer | src/custom_terminal.cpp:32-37 | the printed text is every entry, in order; the buffer is left empty |
| Manager.EntryText | src/password_manager.cpp:60 | the listing text of one entry, `"  - App: " + app + ", Password: " + pass`; stated by ViewMessagesShape |
| Manager.EntryLines | src/password_manager.cpp:59-60 | one buffered listing line per visited key, as many lines as keys; their content is stated by ViewMessagesShape |
| Manager.ViewMessages | src/password_manager.cpp:56-65 | the listing's first message is "Saved Passwords:" and its last a blank line; in between there is one message per visited key, or the single "No passwords saved!" message for an empty map |
| Manager.ViewMessagesShape | src/password_manager.cpp:56-65 | for an iteration order of the map: one listing line per entry, and entry i of the order is line i + 1, showing that key and its password |
| Manager.CommitMessages | src/password_manager.cpp:67-76 | no message after a successful save; with a clean flag exactly one message, "No changes"; a failed save of dirty data gives the "problem" message and then "No changes" |
| Manager.PasswordManager.constructor | src/password_manager.cpp:27-31 | the map is the loaded data and the dirty flag is false; this is the only place the flag is set to false |
| Manager.PasswordManager.AddPassword | src/password_manager.cpp:33-44 | an empty name leaves the map and the flag unchanged and pushes the "requires an app name" message. Otherwise the name gets the password, overwriting any old value, every other key is unchanged, the flag becomes true and the success message is pushed |
| Manager.PasswordManager.DeletePassword | src/password_manager.cpp:46-54 | the flag becomes true even when the key is missing; afterwards the key is absent and every other entry is unchanged; pushes "deleted" if the key existed and "Could not find entry." otherwise |
| Manager.PasswordManager.ViewPasswords | src/password_manager.cpp:56-65 | the map and the flag are unchanged; the buffer gains exactly the listing messages, in some iteration order of the map |
| Manager.PasswordManager.CommitData | src/password_manager.cpp:67-76 | with a clean flag nothing is saved, the file is unchanged, "No changes" is pushed and the result is false. With a dirty flag the result is true exactly when the save succeeds, the flag is not cleared, and what was written loads back as the map. A failed save pushes "problem" and then "No changes" |

## Left out

- `IEncryption` is not modelled as a trait. Its only implementation, `HexEncryption`, is used directly, so the record store is proved for the hex codec only.
- `Decrypt` and `Load` do not model decoding of odd-length or non-hex text. On odd-length text the C++ writes past its buffer, and on non-hex characters it computes a meaningless byte or has undefined behaviour, so valid hex is a precondition.
- The signed-`char` conversions in `decrypt` are not modelled. Bytes are characters 0-255.
- Real file and stream mechanics are not modelled: partial writes, a write failing after the open succeeded, and the non-atomic truncate-then-write. A save either fails to open or writes everything.
- `std::filesystem::current_path` is not modelled: the working directory is a parameter.
- Path joining follows POSIX rules only. Windows root names and drive letters are not modelled.
- The concrete iteration order of `unordered_map` is not modelled. Saving and viewing are proved for every order.
- Actual printing to `std::cout` is not modelled. `PrintAndClearBuffer` returns the text it would print.
- `CustomTerminal::ClearTerminal` is not modelled: it shells out to `cls`/`clear`.
- `CustomIO::GetNumericInput`, `GetInput`, `GetInputLine` and `PrintToScreen` are not modelled. They are console I/O, and `GetNumericInput` also relies on `std::stoi` exceptions.
- src/driver.cpp, src/main.cpp and src/logger.cpp are not part of this model. They hold the interactive menu loop, the master-password comparison, an old entry point that calls outdated signatures, and wall-clock logging.
