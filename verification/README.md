# MicroSIP: a verified model of its algorithms and persistent state

MicroSIP is a softphone. Behind its dialogs sit a UTF-8/UTF-16 codec, a call history kept in numbered slots of an ini
file, text escaping and SIP address formatting, a language-pack index, and a few small state machines: dialled numbers,
directory synchronisation, account slots and call events. This project models those, together with the dependency
ordering of the bundled `pkgconfig.py`, and proves what they guarantee on every input and over every run.

`dafny verify dfyconfig.toml` checks the whole project. The modules follow the program:

| module | part of the program |
|---|---|
| `Unicode`, `UtfBits`, `UtfText`, `CString`, `Utf`, `UtfLaws` | the codec of `utf.cpp`: the two standards as definitions on code points, the bit operators, the converters proved against the standards, and the laws the converters keep together |
| `XmlEntity`, `ContactText` | entity escaping and the text pipeline that saves and loads a contact |
| `SipUri` | formatting and parsing of SIP addresses |
| `CallRecord`, `CallSlots`, `CallReadBack`, `CallHistory`, `Calls` | the text form of a call, the slots of the file, what survives a read of limited length, the history as a state machine, and the dialog class that implements it |
| `CallEvents`, `CallEventHistory`, `MainDlg` | call events: tone and attended lists, and what they do to the history |
| `Backslashes`, `LangPack` | in-place unescaping and the language-pack index |
| `Contacts`, `Dialed`, `Accounts` | directory synchronisation, dialled numbers, account slots |
| `PkgConfig` | the priority sort of `pkgconfig.py` |
| `Sequences` | a definition shared by several modules |

UTF-8 is section 3 of RFC 3629, UTF-16 section 2 of RFC 2781, and SIP addresses are a subset of section 19.1.1 of RFC 3261.

How the model is laid out:

- Code that updates something in place is a class or a method on arrays (`Utf`, `Calls.Dialog`, `MainDlg.CmainDlg`,
  `Contacts.Page`, `Dialed.Dialer`, `Accounts.AccountSettings`, `Backslashes`). Each such method is tied to a function of
  its inputs and old state, and the theorems are about runs of those functions.
- The ini file is a map from slot numbers to texts. An empty value reads as an absent key, and a read is cut at 255 characters.
  `Calls.Dialog` keeps a ghost journal of every state the file goes through, so that statements such as "no record is
  lost" hold after each single write and not only at the end.
- In `UtfText`, reading is defined as the inverse of writing (`First8` picks the code point whose encoding the text starts with),
  so the decoder's tables and the surrogate arithmetic have a specification that does not mention them.

Where code and expectation part ways, the model follows the code and the exact boundary is proved:

- The comment above `Utf8toUcs2` and `Ucs2toUtf8` promises -2 on an invalid character. A buffer that fills up first gives -1: the
  decoder answers -2 only if what it can read leaves room, the encoder only if what it can read fits (`Utf.Outcome`).
- The decoder accepts three-byte forms of surrogate values, so decoding and re-encoding returns the bytes if and
  only if they hold none (`UtfLaws.DecodeThenEncode`, with a concrete loss in `UtfLaws.SurrogateTripleIsLossy`).
- `is_utf8_string` accepts bytes that the decoder refuses, such as a lone continuation byte (`UtfLaws.LooseTestIsWeaker`). The
  decoder accepts exactly what the test's scan accepts and what has legal lead bytes throughout (`UtfLaws.DecoderIsTestAndLegal`).
- A record written to the history comes back from a read of 255 characters if and only if it is `CallReadBack.Storable`: some
  longer records survive as well, because the decoder fills in zeros and defaults.
- A loaded history is a valid state only if no text starts with a semicolon and no slot lies behind a gap
  (`CallHistory.LoadedIsValid`, with `CallHistory.NumberlessEntryIsLost` and `CallHistory.StaleRecordReturns` for the two ways to
  fail). The program can write such a text itself (`CallHistory.SemicolonUser`).
- A history file of tombstones only is loaded into slot 0 kept as a tombstone and `nextKey` 1 (`CallHistory.LoadedFrom`).
- A language pack that ends with a bare header keeps that entry without a text, and looking it up answers NULL
  (`LangPack.BareHeaderAnswersNull`); `LangPack.NullIffEndsBare` says exactly when.
- Deleting an account moves its successors down, and an account without a password loses its user name on the
  way (`Accounts.DeleteRemovesExactly`, `Accounts.NameLostWithoutPassword`).
- A formatted address is not always parsed back; `SipUri.ParseRecovers` says exactly when.
- A repeated synchronisation never changes a contact, but rewrites the file when its entries contradict each
  other (`Contacts.SyncTwice`).
- The depth bound of ten in the priority recursion is tight: a line of eleven packages is no longer ranked
  (`PkgConfig.LineRankedIffShort`); `PkgConfig.RequirerOutranksIff` is the exact condition on any graph.

## Model

| member | source | states |
|---|---|---|
| `UtfLaws.EncodeThenDecode` | MicroSIP-3.12.1-src/utf.cpp:82-227 | whatever the encoder produces, the decoder turns back into the same UTF-16 text |
| `UtfLaws.DecodeThenEncode` | MicroSIP-3.12.1-src/utf.cpp:82-227 | bytes the decoder accepts come back from the encoder if and only if they contain no 0xED followed by a byte of 0xA0 or more |
| `UtfLaws.TripleIsSurrogate` | MicroSIP-3.12.1-src/utf.cpp:142-167 | that byte pattern occurs in an encoding exactly when some encoded value is a surrogate |
| `UtfLaws.SurrogateTripleIsLossy` | MicroSIP-3.12.1-src/utf.cpp:142-167 | ED A0 80 decodes to the lone surrogate D800, which the encoder refuses |
| `UtfLaws.EncoderAcceptsExactlyPaired` | MicroSIP-3.12.1-src/utf.cpp:25-70 | the encoder accepts exactly the texts in which every high surrogate is followed by a low one and every low one preceded by a high one |
| `UtfLaws.DecoderAcceptsExactlyShortestForms` | MicroSIP-3.12.1-src/utf.cpp:142-193 | the decoder accepts exactly the concatenations of shortest forms of values up to 0x10FFFF |
| `UtfLaws.OrderPreserved` | MicroSIP-3.12.1-src/utf.cpp:82-139 | byte order of two encodings is code point order of the texts |
| `UtfLaws.EncoderInjective` | MicroSIP-3.12.1-src/utf.cpp:82-139 | two texts with the same encoding are the same text |
| `UtfLaws.LooseTestAcceptsEncodings` | MicroSIP-3.12.1-src/utf.cpp:380-420 | the UTF-8 test accepts every NUL-free encoder output holding a non-ASCII character |
| `UtfLaws.DecoderIsTestAndLegal` | MicroSIP-3.12.1-src/utf.cpp:142-420 | the decoder accepts exactly the strings that the UTF-8 test's scan accepts and whose lead bytes are all legal, second bytes after E0, F0 and F4 in range |
| `UtfLaws.LooseTestIsWeaker` | MicroSIP-3.12.1-src/utf.cpp:380-420 | the test alone is not enough: a stray continuation byte passes it and is refused by the decoder |
| `UtfLaws.OnesAbove` | MicroSIP-3.12.1-src/utf.cpp:395-410 | how many continuation bytes the test asks for behind the bytes that are no lead bytes of the standard |
| `UtfLaws.StandardExamples` | MicroSIP-3.12.1-src/utf.cpp:82-139 | the encoder gives the examples of section 7 of RFC 3629 and section 4 of RFC 2781 |
| `UtfText.ShapedIsEncoding` | MicroSIP-3.12.1-src/utf.cpp:5-21 | the table tests hold for a value exactly when the bytes start with its shortest form |
| `UtfText.Utf8PrefixFree` | MicroSIP-3.12.1-src/utf.cpp:82-139 | no encoded character is a prefix of another |
| `UtfText.Complete` | MicroSIP-3.12.1-src/utf.cpp:142-167 | a complete run of continuation bytes yields the assembled value, and nothing if that is overlong or out of range |
| `UtfText.Broken` | MicroSIP-3.12.1-src/utf.cpp:142-167 | a sequence that is cut short, broken or started by an illegal byte encodes nothing |
| `UtfText.SurrogateValueIsFirst` | MicroSIP-3.12.1-src/utf.cpp:25-36 | the surrogate arithmetic inverts the UTF-16 form, and answers 0 for a non-NUL character exactly where there is nothing to invert |
| `UtfText.Scan8Exact` | MicroSIP-3.12.1-src/utf.cpp:170-193 | reading bytes succeeds with given code points exactly when the bytes are their encoding |
| `UtfText.Scan16Exact` | MicroSIP-3.12.1-src/utf.cpp:39-70 | reading UTF-16 succeeds with given code points exactly when they are scalars and the text is their UTF-16 form |
| `UtfBits.Masks` | MicroSIP-3.12.1-src/utf.cpp:18-33 | the masks of the code, as `&` digit by digit, are the remainders of the model |
| `UtfBits.Marks` | MicroSIP-3.12.1-src/utf.cpp:98-165 | the marks or-ed onto lead bytes, trail bytes and surrogates, and six bits or-ed below a shifted value, are sums |
| `UtfBits.FlipsTopBit` | MicroSIP-3.12.1-src/utf.cpp:152-160 | xor with 0x80 takes a continuation byte below 0x40 and any other byte to 0x40 or more |
| `UtfBits.AndMask` | MicroSIP-3.12.1-src/utf.cpp:18-33 | masking the k low bits of any number is its remainder by the k-th power of two |
| `UtfBits.OrIsSum` | MicroSIP-3.12.1-src/utf.cpp:98-165 | or-ing numbers that share no bit is adding them |
| `Utf.DecodeUtf8Char` | MicroSIP-3.12.1-src/utf.cpp:142-167 | delivers the code point the bytes start with and steps just past it, or a value above 0x10FFFF when there is none |
| `Utf.Utf8toUcs2Len` | MicroSIP-3.12.1-src/utf.cpp:170-193 | the length of the decoded text, or -2 exactly for bytes that are not a concatenation of shortest forms |
| `Utf.Utf8toUcs2` | MicroSIP-3.12.1-src/utf.cpp:197-227 | for every buffer size: the decoded text, or -1 exactly if it does not fit; -2 and -1 told apart on invalid input; nothing written past the text |
| `Utf.Outcomes` | MicroSIP-3.12.1-src/utf.cpp:195-227 | the results written out: the length, -1 for a text that does not fit, -2 or -1 for an invalid one |
| `Utf.Ucs2toUtf8Len` | MicroSIP-3.12.1-src/utf.cpp:39-70 | the length of the encoding, or -2 exactly for a text with an unpaired surrogate |
| `Utf.PutChar` | MicroSIP-3.12.1-src/utf.cpp:91-136 | one character's bytes are written if they fit and nothing is written otherwise |
| `Utf.Ucs2toUtf8` | MicroSIP-3.12.1-src/utf.cpp:82-139 | for every buffer size: the encoding, or -1 exactly if it does not fit; -2 and -1 told apart on invalid input; nothing written past the text |
| `Utf.Utf8EncodeUcs2` | MicroSIP-3.12.1-src/utf.cpp:360-378 | the encoding of the text in front of the first NUL, or NULL |
| `Utf.Utf8DecodeUcs2` | MicroSIP-3.12.1-src/utf.cpp:288-310 | the decoding of the bytes in front of the first NUL, or NULL |
| `Utf.Utf8DecodeCP` | MicroSIP-3.12.1-src/utf.cpp:232-286 | the wide text, and the string rewritten in place in the code page; short strings are only widened; NULL and an untouched string exactly for bytes that do not decode |
| `Utf.NoMoreUnitsThanBytes` | MicroSIP-3.12.1-src/utf.cpp:270-278 | a text never takes more UTF-16 units than UTF-8 bytes, so the string rewritten in place always fits |
| `Utf.IsUtf8String` | MicroSIP-3.12.1-src/utf.cpp:380-420 | true exactly for texts with a non-ASCII byte in which each lead byte with n leading ones has n - 1 continuation bytes behind it |
| `XmlEntity.DecodeInvertsEncode` | MicroSIP-3.12.1-src/global.cpp:212-228 | decoding undoes encoding on every string |
| `XmlEntity.EncodeIsCharacterWise` | MicroSIP-3.12.1-src/global.cpp:221-228 | the four replacements amount to one substitution per character |
| `XmlEntity.EncodeWritesEntities` | MicroSIP-3.12.1-src/global.cpp:221-228 | the encoded text has `&amp;`, `&lt;`, `&gt;` and `&quot;` for the four characters and everything else as it was |
| `XmlEntity.EncodedIsSafe` | MicroSIP-3.12.1-src/global.cpp:221-228 | no angle bracket or quote is left |
| `XmlEntity.DecodeIsOnePass` | MicroSIP-3.12.1-src/global.cpp:212-219 | on every string, escaped or not, the four replacements amount to one left-to-right pass over the four entities |
| `ContactText.LoadOfSave` | MicroSIP-3.12.1-src/Contacts.cpp:377-424 | what comes back from the file, for every text: all of it in front of its first NUL if well-formed, and nothing otherwise |
| `ContactText.SurvivesIffWellFormed` | MicroSIP-3.12.1-src/Contacts.cpp:377-424 | a text survives saving and loading if and only if it is NUL-free and its surrogates are paired |
| `ContactText.SavedIsSafe` | MicroSIP-3.12.1-src/Contacts.cpp:377-381 | no stored value holds a quote or a bracket |
| `ContactText.SavedIsUtf8` | MicroSIP-3.12.1-src/Contacts.cpp:377-381 | the bytes of the stored value are the UTF-8 of the text with its entities |
| `ContactText.EscapedPaired` | MicroSIP-3.12.1-src/global.cpp:221-228 | escaping neither pairs nor unpairs a surrogate |
| `ContactText.EscapedCStr` | MicroSIP-3.12.1-src/global.cpp:221-228 | escaping commutes with cutting a text at its first NUL |
| `ContactText.SaveText` | MicroSIP-3.12.1-src/Contacts.cpp:377-381 | the save pipeline: escape, encode, widen; a NULL becomes an empty value |
| `ContactText.LoadText` | MicroSIP-3.12.1-src/Contacts.cpp:422-424 | the load pipeline: narrow, decode, unescape; a NULL becomes an empty text |
| `ContactText.WidenIsSigned` | MicroSIP-3.12.1-src/global.cpp:201-210 | a byte is widened as the signed number it stands for, and narrowing gives it back |
| `ContactText.AnsiToUnicode` | MicroSIP-3.12.1-src/global.cpp:201-210 | every byte widened, in order |
| `ContactText.UnicodeToAnsi` | MicroSIP-3.12.1-src/global.cpp:190-199 | every character narrowed, in order |
| `SipUri.SimpleFormatIdempotent` | MicroSIP-3.12.1-src/global.cpp:269-302 | formatting twice in simple mode is formatting once, on every input |
| `SipUri.ParseRecovers` | MicroSIP-3.12.1-src/global.cpp:88-302 | with an active account, parsing a formatted address recovers user, domain and an empty name if and only if the user holds no '@' and no scheme, and the domain no ';', no closing '>' and, without a transport, no '>' at all |
| `SipUri.AddressWritten` | MicroSIP-3.12.1-src/global.cpp:256-302 | the formatted text of a plain user letter by letter, for each transport, and where no transport is written: in simple mode and for a local address with an active account |
| `SipUri.CompleteAddressRecovers` | MicroSIP-3.12.1-src/global.cpp:88-302 | an address with a domain of its own gets none added and is parsed back under every transport |
| `SipUri.SchemeInAnyCase` | MicroSIP-3.12.1-src/global.cpp:271-277 | the scheme is recognised in every mixture of upper and lower case, and nothing else is |
| `SipUri.ParseWithoutUser` | MicroSIP-3.12.1-src/global.cpp:117-132 | without an '@' there is no user and the rest is the domain |
| `SipUri.ParseRecoversName` | MicroSIP-3.12.1-src/global.cpp:88-108 | a quoted display name is recovered if and only if it is empty, or nothing trims it, it holds no scheme and it is not "unknown" in any case |
| `SipUri.DomainRecovered` | MicroSIP-3.12.1-src/global.cpp:117-132 | behind any text, a domain is parsed back if and only if it is delimited |
| `SipUri.OwnSchemeIsLost` | MicroSIP-3.12.1-src/global.cpp:88-302 | an address formatted from a user that brings its own scheme is never parsed back as it was |
| `CallHistory.RunKeepsInv` | MicroSIP-3.12.1-src/Calls.cpp:253-334 | after any run the slots are exactly 0..nextKey-1, the live ones are those of the list, newest last, each keeping its record, and the list stays within 1000 |
| `CallHistory.RunThenReload` | MicroSIP-3.12.1-src/Calls.cpp:253-491 | after any run a restart shows as many entries in the same order; an entry is the same if and only if it is storable or was itself read from the file, and the new state is valid if and only if no number starts with a semicolon |
| `CallHistory.ReloadRebuildsList` | MicroSIP-3.12.1-src/Calls.cpp:382-491 | loading the file of any valid state gives a list of the same length in the same order, and which of its records are intact |
| `CallHistory.LiveBelow` | MicroSIP-3.12.1-src/Calls.cpp:263-272 | the live slots in key order are the list from bottom to top |
| `CallHistory.ApplyKeepsInv` | MicroSIP-3.12.1-src/Calls.cpp:253-334 | each operation keeps that invariant and the limit |
| `CallHistory.AddedKeepsInv` | MicroSIP-3.12.1-src/Calls.cpp:274-310 | adding a call, or changing a missed one to another type, keeps the invariant and the limit |
| `CallHistory.DeletedKeepsInv` | MicroSIP-3.12.1-src/Calls.cpp:253-261 | a tombstone and the removed item together keep the invariant |
| `CallHistory.TrimmedKeeps` | MicroSIP-3.12.1-src/Calls.cpp:297-300 | the trimming loop drops the oldest items above 1000 and nothing else |
| `CallHistory.NewCallGoesOnTop` | MicroSIP-3.12.1-src/Calls.cpp:274-301 | a call not listed yet goes on top under a fresh key and the newest thousand stay |
| `CallHistory.ListedNumber` | MicroSIP-3.12.1-src/Calls.cpp:280-296 | a call from user u at domain d is listed as u if d is empty or the own domain and as u@d otherwise, with the name, type and time given |
| `CallHistory.CallingBack` | MicroSIP-3.12.1-src/Calls.cpp:280-290 | formatting the listed number with the account and parsing it gives back the caller's user and domain |
| `CallHistory.AddingAgain` | MicroSIP-3.12.1-src/Calls.cpp:279-309 | a call without a user changes nothing; a call listed already changes nothing but a missed type, in one item and one slot |
| `CallHistory.SettingTouchesOne` | MicroSIP-3.12.1-src/Calls.cpp:312-334 | setting a duration or an info changes that field of the first item with the id and its slot, and nothing else |
| `CallHistory.DeletingTakesOne` | MicroSIP-3.12.1-src/Calls.cpp:253-261 | deleting takes out the chosen item, writes null over its slot, and touches nothing else |
| `CallHistory.LoadedIsValid` | MicroSIP-3.12.1-src/Calls.cpp:382-427 | a loaded history is a valid state if and only if no text starts with a semicolon and nothing lay behind the first gap |
| `CallHistory.NumberlessEntryIsLost` | MicroSIP-3.12.1-src/Calls.cpp:263-322 | otherwise: an entry without a number is turned into a tombstone by its next change while the list still shows it |
| `CallHistory.SemicolonUser` | MicroSIP-3.12.1-src/Calls.cpp:274-296 | the program writes such a text for an address whose user starts with a semicolon |
| `CallHistory.StaleRecordReturns` | MicroSIP-3.12.1-src/Calls.cpp:390-417 | otherwise: filling a gap makes the next load read what lay behind it |
| `CallSlots.CompactingKeepsLive` | MicroSIP-3.12.1-src/Calls.cpp:390-417 | while loading moves records down, the live records of the file stay the same, in the same order |
| `CallSlots.CopiedIsDoubled` | MicroSIP-3.12.1-src/Calls.cpp:401-405 | between the two writes of a move exactly one record is in the file twice |
| `CallSlots.MoveIsSafe` | MicroSIP-3.12.1-src/Calls.cpp:401-406 | after each of the two writes the slots are contiguous and no record is lost, and both together take compaction one slot further |
| `CallSlots.CutTombstone` | MicroSIP-3.12.1-src/Calls.cpp:422-426 | erasing the top tombstone keeps every record |
| `CallSlots.CuttingLive` | MicroSIP-3.12.1-src/Calls.cpp:422-426 | the file being cut still holds exactly the live records |
| `CallRecord.DecodeInvertsEncodeIffClean` | MicroSIP-3.12.1-src/Calls.cpp:429-491 | a record comes back from its text if and only if its texts hold no semicolon and its type is one of the three |
| `CallReadBack.ReadBackIffStorable` | MicroSIP-3.12.1-src/Calls.cpp:387-491 | a record comes back from a read of 255 characters if and only if it is clean and fits, or all it loses is what the decoder fills in by itself |
| `CallReadBack.CutNumbers` | MicroSIP-3.12.1-src/Calls.cpp:455-490 | which of the numbers behind the name come back when the text is cut among them |
| `CallRecord.CallDecode` | MicroSIP-3.12.1-src/Calls.cpp:436-491 | the scan computes the fields between semicolons, with the defaults for those missing |
| `CallRecord.DecodedFieldByField` | MicroSIP-3.12.1-src/Calls.cpp:429-491 | what each field of a written record is read as; a type out of range is read as 0 |
| `CallRecord.SplitEncode` | MicroSIP-3.12.1-src/Calls.cpp:429-434 | which fields a record's text splits into, also when they contain semicolons |
| `CallRecord.AtoiInvertsDecimal` | MicroSIP-3.12.1-src/Calls.cpp:462-475 | every 32-bit number is read back from its decimal form |
| `CallRecord.AtoiForms` | MicroSIP-3.12.1-src/Calls.cpp:462-475 | blanks and a plus sign are skipped, what follows the digits is ignored, large numbers saturate, other texts are 0 |
| `Calls.Dialog.constructor` | MicroSIP-3.12.1-src/Calls.cpp:47 | an empty list over an existing file, next key 0 |
| `Calls.Dialog.CallSave` | MicroSIP-3.12.1-src/Calls.cpp:263-272 | one write; the next key moves on only for a new slot |
| `Calls.Dialog.Delete` | MicroSIP-3.12.1-src/Calls.cpp:253-261 | one write; the invariant holds and the file is loadable after it |
| `Calls.Dialog.Get` | MicroSIP-3.12.1-src/Calls.cpp:336-348 | the first item with the id, or -1 |
| `Calls.Dialog.Add` | MicroSIP-3.12.1-src/Calls.cpp:274-310 | the specified new state, the invariant, at most 1000 items, and a loadable file after every single write |
| `Calls.Dialog.Insert` | MicroSIP-3.12.1-src/Calls.cpp:351-360 | the new item on top, and its save |
| `Calls.Dialog.TrimToLimit` | MicroSIP-3.12.1-src/Calls.cpp:297-300 | the loop meets its specification with a loadable file after every write |
| `Calls.Dialog.SetDuration` | MicroSIP-3.12.1-src/Calls.cpp:312-322 | only the duration of the first item with the id changes, in list and file |
| `Calls.Dialog.SetInfo` | MicroSIP-3.12.1-src/Calls.cpp:324-334 | only the info of the first item with the id changes, in list and file |
| `Calls.Dialog.LoadSlot` | MicroSIP-3.12.1-src/Calls.cpp:391-411 | one slot read takes the loop invariant one slot further; no record is lost by any of its writes |
| `Calls.Dialog.ReadSlots` | MicroSIP-3.12.1-src/Calls.cpp:390-417 | the loop ends at the first absent key with every slot read |
| `Calls.Dialog.CallsLoad` | MicroSIP-3.12.1-src/Calls.cpp:382-427 | for every file: the k-th live record below the first gap ends up in slot k, the list is rebuilt newest first, what lies behind the gap is untouched, and after every write no record is lost and at most one is there twice |
| `Calls.Dialog.CutTail` | MicroSIP-3.12.1-src/Calls.cpp:422-426 | the slots from nextKey up are erased without losing a record after any write |
| `CallEvents.RunIsAccurate` | MicroSIP-3.12.1-src/mainDlg.cpp:292-413 | after any run, attended calls are without duplicates those whose latest state is early, connecting or confirmed; tone calls those whose latest outgoing event was 180 without media; the timer runs iff there are any |
| `CallEventHistory.ReceivedIffAnswered` | MicroSIP-3.12.1-src/mainDlg.cpp:339-362 | in any run, an incoming call listed from some event on is in the end listed as received if and only if it was confirmed since, and as missed otherwise |
| `CallEventHistory.HistoryRunConcat` | MicroSIP-3.12.1-src/mainDlg.cpp:339-362 | a run of events can be cut anywhere |
| `CallEventHistory.EventsKeepInv` | MicroSIP-3.12.1-src/mainDlg.cpp:339-362 | list and file of the history stay in step over every run of events |
| `CallEventHistory.EntryTellsStory` | MicroSIP-3.12.1-src/mainDlg.cpp:339-362 | in any run, the entry of a call that stays listed has number, name and time from the event that listed it, the duration of its latest disconnection, the text of its latest unsuccessful one, and its type |
| `CallEventHistory.OutgoingStaysOutgoing` | MicroSIP-3.12.1-src/mainDlg.cpp:351-356 | in any run, an outgoing call was listed when it was placed and is listed as outgoing |
| `CallEventHistory.ListedBy` | MicroSIP-3.12.1-src/mainDlg.cpp:339-356 | exactly which events list a call: ringing or answered for an incoming one, placed for an outgoing one, with a tab and a user |
| `CallEventHistory.StepRecords` | MicroSIP-3.12.1-src/mainDlg.cpp:339-362 | what one event makes of the entry of its own call; any other event leaves an entry alone or removes it |
| `CallEventHistory.OthersLeaveAlone` | MicroSIP-3.12.1-src/mainDlg.cpp:339-362 | other calls leave an entry alone as long as there is room, and tearing the library down changes nothing in the history |
| `MainDlg.CmainDlg.OnCallState` | MicroSIP-3.12.1-src/mainDlg.cpp:292-413 | the handler performs exactly one step of both state machines and keeps the history invariant |
| `MainDlg.CmainDlg.UpdateTones` | MicroSIP-3.12.1-src/mainDlg.cpp:292-313 | tone list and timer after one event |
| `MainDlg.CmainDlg.UpdateHistory` | MicroSIP-3.12.1-src/mainDlg.cpp:339-362 | the history after one event |
| `MainDlg.CmainDlg.PJDestroy` | MicroSIP-3.12.1-src/mainDlg.cpp:2115-2137 | with the library running both lists are emptied and the timer stopped; without it nothing changes |
| `Backslashes.ConvertBackslashes` | MicroSIP-3.12.1-src/langpack.cpp:36-53 | the in-place loop ends and leaves the left-to-right unescaped text, shorter by exactly the number of escapes, also for a lone backslash at the end |
| `Backslashes.ConvertOne` | MicroSIP-3.12.1-src/langpack.cpp:40-51 | one escape is replaced, what stands behind it pulled down, and nothing in front of it touched |
| `Backslashes.ShiftDown` | MicroSIP-3.12.1-src/langpack.cpp:50 | the overlapping move by one |
| `Backslashes.UnescapeLength` | MicroSIP-3.12.1-src/langpack.cpp:36-53 | unescaping drops one byte for each escape and never introduces a NUL |
| `Backslashes.UnescapeInverts` | MicroSIP-3.12.1-src/langpack.cpp:36-53 | unescaping gives back every text written with doubled backslashes and the escapes for line feed, tab and carriage return |
| `Backslashes.UnescapeOther` | MicroSIP-3.12.1-src/langpack.cpp:42-49 | a backslash in front of any other character stands for that character |
| `LangPack.Translate` | MicroSIP-3.12.1-src/langpack.cpp:206-286 | for every pack, key, sorted table and search hit, the answer is that of the earliest written surviving section with the key's hash, or the key; and it is NULL if and only if the pack ends with a bare header of that hash that no surviving section precedes |
| `LangPack.Lookup` | MicroSIP-3.12.1-src/langpack.cpp:262-286 | the walk stops at the start of the hash group of the hit |
| `LangPack.FoundIsFirstWritten` | MicroSIP-3.12.1-src/langpack.cpp:262-286 | whichever entry of the hash the search lands on, the walk ends at the one written first |
| `LangPack.GroupStartIsFirstWritten` | MicroSIP-3.12.1-src/langpack.cpp:127-144 | the lowest entry of a hash group in the sorted table is the first one in writing order |
| `LangPack.LoadBody` | MicroSIP-3.12.1-src/langpack.cpp:206-257 | the table built line by line is the sections of the body, textless ones dropped when another follows |
| `LangPack.LineMeans` | MicroSIP-3.12.1-src/langpack.cpp:206-230 | what every line means that is written with the escapes of the format, under each line ending: nothing, a header, or exactly the text that was written |
| `LangPack.PlainLineMeans` | MicroSIP-3.12.1-src/langpack.cpp:206-230 | a line without a backslash means what it says, and only spaces make it blank |
| `LangPack.HeaderMeans` | MicroSIP-3.12.1-src/langpack.cpp:211-226 | a written key in brackets opens a section of that key |
| `LangPack.CommentMeans` | MicroSIP-3.12.1-src/langpack.cpp:208 | a line that starts with a semicolon is ignored |
| `LangPack.WrittenPackTranslates` | MicroSIP-3.12.1-src/langpack.cpp:206-286 | a written pack, looked up under a key whose hash no other key shares, answers the text written first for it, or the key |
| `LangPack.JoinedLines` | MicroSIP-3.12.1-src/langpack.cpp:229-251 | the text of a section is its lines, one below the other |
| `LangPack.SectionsSnoc` | MicroSIP-3.12.1-src/langpack.cpp:206-257 | one more line opens a section or extends the last one |
| `LangPack.EntriesNumbered` | MicroSIP-3.12.1-src/langpack.cpp:226 | line positions grow in writing order, which is what breaks ties in the sort |
| `LangPack.HashIsAsGoodAsKey` | MicroSIP-3.12.1-src/langpack.cpp:262-286 | when no other key of the pack shares the hash, looking up by hash is looking up by key |
| `LangPack.NullIffEndsBare` | MicroSIP-3.12.1-src/langpack.cpp:206-286 | a lookup that finds an entry answers NULL if and only if the last section has no text and the hash, and no surviving section before it has that hash |
| `LangPack.BareHeaderAnswersNull` | MicroSIP-3.12.1-src/langpack.cpp:206-286 | the pack of the single line [a] answers NULL for a, under every hash |
| `LangPack.OnlyLastLacksText` | MicroSIP-3.12.1-src/langpack.cpp:212-216 | an entry without text exists only as the last one, for a pack that ends with a bare header |
| `LangPack.WideAgreesWithNarrow` | MicroSIP-3.12.1-src/langpack.cpp:106-286 | for every table and whatever the searches hit, a wide lookup finds what a narrow lookup of the low bytes finds, which for characters that fit a byte is the same text |
| `Contacts.SyncedNumbers` | MicroSIP-3.12.1-src/mainDlg.cpp:2854-2908 | after a synchronisation with at least one number the numbers are the manual ones and the listed ones, and manual contacts stay manual |
| `Contacts.SyncedGet` | MicroSIP-3.12.1-src/mainDlg.cpp:2854-2908 | number by number: listed ones present with their origin kept and the last name and presence given, unlisted manual ones untouched, everything else gone, no duplicate, no mark left |
| `Contacts.MergedContents` | MicroSIP-3.12.1-src/Contacts.cpp:307-357 | merging leaves a listed contact with the last name and presence given for it, however often it is listed |
| `Contacts.SyncTwice` | MicroSIP-3.12.1-src/mainDlg.cpp:2854-2908 | repeating any synchronisation changes no contact and deletes none, and rewrites the file if and only if two of its entries contradict each other |
| `Contacts.UnsavedSyncChangesNothing` | MicroSIP-3.12.1-src/mainDlg.cpp:2904-2908 | a synchronisation that does not rewrite the file has left the list as it was, apart from marks |
| `Contacts.EmptySyncKeeps` | MicroSIP-3.12.1-src/mainDlg.cpp:2890-2908 | a directory without a single number deletes and changes nothing |
| `Contacts.RunKeepsBook` | MicroSIP-3.12.1-src/Contacts.cpp:307-460 | over every run of synchronisations, additions, deletions and restarts no number is duplicated and no manual contact is marked |
| `Contacts.ReloadedGet` | MicroSIP-3.12.1-src/Contacts.cpp:359-443 | number by number, what saving and loading the list brings back |
| `Contacts.ReloadKeepsContact` | MicroSIP-3.12.1-src/Contacts.cpp:359-443 | a contact with a name and a presence of 0 or 1 comes back as it was, without its mark |
| `Contacts.MergedAllGet` | MicroSIP-3.12.1-src/Contacts.cpp:307-357 | merging touches exactly the listed numbers |
| `Contacts.SweptGet` | MicroSIP-3.12.1-src/Contacts.cpp:617-633 | sweeping removes exactly the marked contacts |
| `Contacts.Page.SetCanditates` | MicroSIP-3.12.1-src/Contacts.cpp:605-616 | exactly the directory contacts become marked |
| `Contacts.Page.DeleteCanditates` | MicroSIP-3.12.1-src/Contacts.cpp:617-633 | the loop that removes while it counts removes all marked contacts and returns their number |
| `Contacts.Page.ContactAdd` | MicroSIP-3.12.1-src/Contacts.cpp:307-357 | for every combination of arguments: merges into the contact with the number or puts a new one on top, and says whether anything but the mark changed |
| `Contacts.AddedCases` | MicroSIP-3.12.1-src/Contacts.cpp:307-357 | what that amounts to for directory entries, the add dialog and loading |
| `Contacts.AddedGet` | MicroSIP-3.12.1-src/Contacts.cpp:307-357 | the number, name, presence and origin that adding leaves under the entry's number, and that other numbers are left alone |
| `Contacts.Page.ContactsLoad` | MicroSIP-3.12.1-src/Contacts.cpp:399-443 | every stored contact with a number goes on top in turn |
| `Contacts.Page.OnUsersDirectoryLoaded` | MicroSIP-3.12.1-src/mainDlg.cpp:2854-2908 | mark, merge in order, sweep if any entry had a number; the file is rewritten exactly if something changed or was deleted |
| `Dialed.ListIsTenLatest` | MicroSIP-3.12.1-src/Dialer.cpp:381-391 | after any dials the list is the ten latest distinct numbers, up to what the combo box takes for equal |
| `Dialed.DialStep` | MicroSIP-3.12.1-src/Dialer.cpp:381-391 | one dial moves its number to the front of all distinct numbers, of which the list shows the first ten |
| `Dialed.DialKeepsSpelling` | MicroSIP-3.12.1-src/Dialer.cpp:381-391 | the number stands on top as it was dialled unless its like was there already, and the others keep their spelling |
| `Dialed.LoadOfSave` | MicroSIP-3.12.1-src/Dialer.cpp:488-520 | the list is read back if and only if every entry is non-empty and at most 255 characters long |
| `Dialed.Dialer.Action` | MicroSIP-3.12.1-src/Dialer.cpp:381-392 | the in-place update is one dial, and the file holds the new list |
| `Dialed.Dialer.DialedSave` | MicroSIP-3.12.1-src/Dialer.cpp:506-520 | the section holds exactly the list |
| `Dialed.Dialer.DialedLoad` | MicroSIP-3.12.1-src/Dialer.cpp:488-504 | the values up to the first absent key are appended in order |
| `Accounts.RunStaysInStep` | MicroSIP-3.12.1-src/AccountDlg.cpp:324-477 | over every run with passwords the active id is in 0..N and the account in use is the stored one |
| `Accounts.LastChoiceIsInUse` | MicroSIP-3.12.1-src/AccountDlg.cpp:324-346 | after any run, the account chosen or confirmed last is the active one and in use, and choosing the active one leaves none; a choice changes no section |
| `Accounts.SwitchChooses` | MicroSIP-3.12.1-src/mainDlg.cpp:1292-1308 | the menu changes no section, and puts exactly the chosen account in use, or none if it was in use |
| `Accounts.SwitchTwice` | MicroSIP-3.12.1-src/mainDlg.cpp:1292-1308 | choosing an account twice switches it on and off again |
| `Accounts.ConfirmFills` | MicroSIP-3.12.1-src/AccountDlg.cpp:324-346 | the dialog fills the chosen slot or a new last one, puts it in use and leaves every other slot alone |
| `Accounts.DeleteRemovesExactly` | MicroSIP-3.12.1-src/AccountDlg.cpp:445-477 | deleting k removes exactly the k-th account if and only if every later account has a password or no user name |
| `Accounts.DeleteKeepsActive` | MicroSIP-3.12.1-src/AccountDlg.cpp:445-477 | the active account keeps its contents unless it is the deleted one, then account 1 or none becomes active |
| `Accounts.MovedIntact` | MicroSIP-3.12.1-src/settings.cpp:354-538 | loading and saving keeps a section if and only if it has a password or no user name |
| `Accounts.NameLostWithoutPassword` | MicroSIP-3.12.1-src/settings.cpp:513-520 | a user name without a password is lost when its account moves |
| `Accounts.AccountSettings.AccountLoad` | MicroSIP-3.12.1-src/settings.cpp:354-494 | what is read from a section that is there or not, and failure exactly for one that is missing or has no domain |
| `Accounts.AccountSettings.AccountMigrate` | MicroSIP-3.12.1-src/settings.cpp:361-493 | the account of an old version is moved to slot 1 and removed from the Settings section |
| `Accounts.AccountSettings.Start` | MicroSIP-3.12.1-src/settings.cpp:319-338 | migration or the saved id decides the active account; an id without a usable section becomes 0; a valid file gives a valid state |
| `Accounts.RestartKeepsActive` | MicroSIP-3.12.1-src/settings.cpp:319-338 | starting again changes nothing while an account is active |
| `Accounts.RestartWithoutActive` | MicroSIP-3.12.1-src/settings.cpp:329-337 | without an active account, starting again puts account 1 in use exactly if the local account is off and there is one |
| `Accounts.LoadedFields` | MicroSIP-3.12.1-src/settings.cpp:354-493 | every field of a section is loaded as it is, and the password is remembered exactly if there is one |
| `Accounts.StoredFields` | MicroSIP-3.12.1-src/settings.cpp:496-544 | an account to be remembered is loaded again as it was saved exactly if it has a password |
| `Accounts.AccountSettings.ShiftDown` | MicroSIP-3.12.1-src/AccountDlg.cpp:450-463 | every later section moves down by one, and the active id with it |
| `Accounts.AccountSettings.Delete` | MicroSIP-3.12.1-src/AccountDlg.cpp:445-477 | the sections stay numbered 1..N, the active id stays in range and on file, and the new state is the specified one |
| `Accounts.AccountSettings.FreeSlot` | MicroSIP-3.12.1-src/AccountDlg.cpp:324-334 | the first free slot is N + 1 |
| `Accounts.AccountSettings.Confirm` | MicroSIP-3.12.1-src/AccountDlg.cpp:324-346 | the account is stored and becomes active, and numbering and range are kept |
| `Accounts.AccountSettings.Switch` | MicroSIP-3.12.1-src/mainDlg.cpp:1292-1308 | another account becomes active, and choosing the active one switches it off |
| `PkgConfig.RequirersFirst` | pkgconfig.py:134-139 | the sort puts every package from which no chain of more than ten packages starts before those it requires |
| `PkgConfig.RequirerOutranksIff` | pkgconfig.py:83-94 | on every graph, a package outranks a requirement if and only if that one starts no more chains of ten packages than the other requirements start chains of at most nine |
| `PkgConfig.PriorityCountsChains` | pkgconfig.py:83-94 | the priority of a package is the number of dependency chains of at most ten packages that start at it |
| `PkgConfig.ChainsCounted` | pkgconfig.py:83-94 | that number is positive for a length exactly when there is a chain of that length |
| `PkgConfig.RequirerOutranks` | pkgconfig.py:83-94 | a package from which no chain of more than ten packages starts outranks everything it requires |
| `PkgConfig.DepthIrrelevant` | pkgconfig.py:83-94 | where chains end before the bound, the starting depth does not matter |
| `PkgConfig.LineRankedIffShort` | pkgconfig.py:83-94 | in a line of packages each outranks the next if and only if there are at most ten |
| `PkgConfig.LinePriority` | pkgconfig.py:83-94 | a package's priority in a line is what is left of the line, cut at the depth bound |
| `PkgConfig.CalculatePkgPriority` | pkgconfig.py:83-94 | the recursion ends on every graph, cyclic ones included, with the specified sum |

## Left out

- Dialogs, menus, drawing, icons, sounds, timers other than the tone timer, the call library, media, HTTP and the jump list: no algorithm of their own.
- Encryption of stored passwords: passwords are stored as they are.
- Account fields other than domain, user name and password: one opaque text, copied as it is.
- Code pages: the only conversion used is a parameter, required to be transparent for ASCII; `Utf8EncodeCP` is left out.
- The ini file's own syntax (trimming of blanks, quotes, line breaks): a section is a map from keys to values.
- XML parsing and the XML attribute storage of contacts: values are stored verbatim.
- 32-bit overflow of lengths, of slot numbers and of line positions.
- Upper and lower case outside ASCII.
- MurmurHash2: the hash is an arbitrary function, so the lookup theorems hold for this one too.
- The insides of `qsort`, `bsearch` and `sorted`: any sorted permutation, any matching element.
- The header of a language pack, its line buffer of 4096 characters and the code-page conversion of its texts.
- The file access and parsing that surround the text attributes of contacts, the older ini format of contacts, presence subscriptions and name lookup by number.
- The part of `pkgconfig.py` that reads files, expands variables, splits `requires` and filters options: it gives the graph that is the input here.
- Backslashes.ConvertBackslashes: a text whose only escape is a lone backslash at its end makes the code read past the terminator; the contract asks for a further NUL in the buffer there, without which the C code is undefined.
- LangPack.LoadBody: takes the defined value of unescaping for lines that end in a lone backslash, as if that further NUL were always in the line buffer; the same holds for `LangPack.Translate`.
- Utf.Utf8DecodeCP: the code page has single bytes; a character of several bytes might not fit the buffer.
- ContactText.AnsiToUnicode: widening a byte of 0x80 or more is modelled as sign extension, which is what a signed `char` gives; the round trips need only the low byte.
- ContactText.LoadOfSave: asks for a code page that leaves ASCII alone, because one-byte strings go through it.
- Calls.Dialog.CallsLoad: starts from next key 0 and an empty list, which is how the dialog starts.
- CallHistory.RunThenReload: the call ids are not stored and come back empty.
- SipUri.ParseRecovers: covers the non-local formatting with an active account; without one the domain is not part of the address.
- CallHistory.CallingBack: asks for an active account, a user without '@' and scheme, and domains without ';' and '>', the addresses that are parsed back at all.
- LangPack.WrittenPackTranslates: asks that no other key of the pack has the hash of the key looked up; the code compares hashes alone.
- CallEventHistory.ReceivedIffAnswered: an event without a message tab does not count as an answer, because the code ignores it.
- Contacts.Page.ContactAdd: leaves out the writing of the file and the presence subscriptions.
- Contacts.SyncedGet: the contents clause asks for presences of -1, 0 or 1, the only ones the loader produces.
- Accounts.AccountSettings.AccountLoad: the fields other than domain, user name and password are one opaque text, and values longer than the 255 characters of a read are not cut.
- Accounts.AccountSettings.Confirm: the checks on the dialog's fields come before it and are its precondition.
- PkgConfig.RequirersFirst: speaks of the priorities only where they differ; packages of equal priority keep the order of the command line, which is not modelled.
