# cf.h in Dafny

A model of `cf.h`, a small C library that keeps a configuration as
key/value pairs in a buffer of fixed capacity (`CF`, `struct xcf_entry`).
The buffer reads and writes a line-oriented text format (`key = value`,
with `#` and `;` comments) and offers typed accessors for booleans, ints,
unsigned ints and quoted strings on top of the raw string values.

The buffer is two parallel slot arrays, `keys` and `values`. Each slot is
either free (`NULL`) or holds a string. Lookups scan the slots in order.
New keys take the lowest free slot. Keys that are empty or start with `#`
or `;` are never looked up by `CfSetKey`. These are the blank-line and
comment pseudo-entries that `CfRead` keeps when its `cmt` argument is set,
and each one gets a slot of its own.

Modules, one per file:

- `Options` (options.dfy): the `Option` type that stands for a nullable pointer.
- `Text` (text.dfy): the character classes, `xCfLfSpaces`, `xCfRtSpaces` and
  decimal values.
- `Arrays` (arrays.dfy): the private array primitives `xCfFind`, `xCfAdd`,
  `xCfSet` and `xCfDel`.
- `Store` (store.dfy): the buffer, `CfCreate`, `CfSetKey` and `CfGetKey`.
- `Typed` (typed.dfy): `CfGetBool`, `CfGetInt`, `CfGetUint`, `CfGetStr`,
  `CfSetBool`, `CfSetStr` and `CfGetAll`.
- `Format` (format.dfy): the line grammar of `CfRead`, the read loop and `CfWrite`.
- `RoundTrip` (roundtrip.dfy): writing a buffer and reading the text back.

Conventions:

- Status codes are kept as the C `int`s 0 and -1.
- Lookups that return an index return -1 when there is none.
- A `malloc` that may fail is an explicit boolean parameter:
  - `Alloc(keyCopy, valueCopy)` gives the two copies `CfSetKey` makes;
  - `tmpAlloc` gives the temporary buffer of `CfSetStr`.
- A file is the sequence of its lines, each without its newline. `None`
  stands for a file that `fopen` cannot open.
- `CfWrite` yields one printed string per occupied slot, without the newline that ends it.

## Model

| member | source | states |
|---|---|---|
| Arrays.Find | cf.h:646-663 | -1 exactly when no slot holds the key; otherwise the index of the first slot that holds it |
| Arrays.FirstFree | cf.h:674-680 | -1 exactly when every slot is taken; otherwise the lowest free slot, every slot before it taken |
| Arrays.Set | cf.h:690-708 | succeeds exactly when the copy is allocated; then the slot holds the data, else it keeps its old string; no other slot changes |
| Arrays.Add | cf.h:669-684 | fails with -1 and an unchanged array exactly when the array is full or the copy fails; otherwise the data goes in the lowest free slot and nothing else changes |
| Arrays.Del | cf.h:714-722 | the slot becomes free and every other slot is kept |
| Store.Create | cf.h:115-141 | a well-formed buffer of the requested capacity with every slot free |
| Store.SetKey | cf.h:164-198 | a regular key already present gets its value replaced in its first slot, succeeding iff the value copy succeeds; any other key is added with its value in the lowest free slot, succeeding iff both copies succeed; a full buffer refuses a new key; every failure returns -1 with the buffer unchanged (the key is rolled back); occupied keys stay put; unique regular keys and compactness are preserved |
| Store.GetKey | cf.h:204-221 | None exactly when no slot holds the key; otherwise the value of the first slot holding it |
| Store.GetAfterSet | cf.h:164-221 | after a successful set of a regular key, getting that key yields the value set |
| Store.SetKeyFrame | cf.h:164-198 | a set, successful or not, leaves what every other key reads as unchanged |
| Store.ReplaceValue | cf.h:170-176 | replacing the value in the first slot of a key changes what that key reads as and nothing else |
| Store.Entries | cf.h:361-370 | the occupied slots in slot order; as many entries as slots means the buffer is full |
| Store.CapacityExhausted | cf.h:179-195 | once the buffer holds as many entries as it has slots, a key that needs a new slot is refused with -1 |
| Text.LfSpaces | cf.h:732-740 | the string with its leading spaces and tabs removed: a suffix whose removed prefix is all blanks and whose first character is not a blank |
| Text.RtSpaces | cf.h:742-758 | the string with its trailing spaces and tabs removed: a prefix whose removed suffix is all blanks and whose last character is not a blank |
| Text.Trim | cf.h:256-260 | the trimmed line neither starts nor ends with a blank |
| Text.LfSpacesOfPadded | cf.h:732-740 | removing leading blanks from blanks followed by a text that starts with a non-blank gives back that text |
| Text.RtSpacesOfPadded | cf.h:742-758 | removing trailing blanks from a text that ends with a non-blank, followed by blanks, gives back that text |
| Text.TrimOfPadded | cf.h:256-260 | trimming a clean text padded with blanks on both sides gives back exactly that text |
| Typed.GetBool | cf.h:410-428 | 1 for the raw value "true", 0 for "false", the default for any other value or an absent key |
| Typed.BoolExactSpelling | cf.h:410-428 | with a default other than 0 and 1, the result is 1 iff the raw value is "true" and 0 iff it is "false" |
| Typed.SetBool | cf.h:526-531 | a well-formed buffer of the same capacity; -1 leaves the buffer unchanged |
| Typed.BoolRoundTrip | cf.h:526-531 | after a successful set of a regular key, the boolean reads back as 1 for a non-zero argument and 0 for zero, whatever the default |
| Typed.AtoiReadsDecimal | cf.h:434-447 | a value of white space, optional sign, digits and a tail not starting with a digit reads as the signed decimal value of the digits, clamped to 32 bits |
| Typed.AtoiNoDigits | cf.h:434-447 | a value with no digit after its white space and optional sign ("", "abc", "-", "+x") reads as 0, not as the default |
| Typed.GetInt | cf.h:434-447 | the default for an absent key; otherwise atoi of the raw value |
| Typed.GetUint | cf.h:453-477 | the default for an absent key or for a raw value with any non-digit; otherwise the decimal value of the digits modulo 2^32 (0 for the empty value) |
| Typed.GetStr | cf.h:483-516 | the default for an absent key; the raw value when it does not start with a quote; the default with nothing changed when it starts with a quote but is not closed by another one; otherwise the interior, with the closing quote removed from the stored value in the first slot holding the key and every other slot unchanged |
| Typed.GetStrTwice | cf.h:494-503 | a second get of a quoted value falls back to the default, because the first get consumed the closing quote (unless the interior also ends with a quote) |
| Typed.QuotedAsWritten | cf.h:543-550 | the built string is one longer than the input, starts and ends with a quote, and between them holds the input without its last character |
| Typed.SetStr | cf.h:537-564 | a failed temporary allocation returns -1; -1 leaves the buffer unchanged |
| Typed.SetStrDropsLastChar | cf.h:537-564 | after a successful set, the string reads back without its last character; the empty string reads back as the default |
| Typed.Quote | cf.h:543-550 | the quoted form of a string: quotes at both ends, the string itself between them |
| Typed.SetStrIntended | cf.h:537-564 | as SetStr, storing the string between quotes |
| Typed.SetStrIntendedRoundTrip | cf.h:537-564 | after a successful set of a regular key, the string reads back exactly |
| Typed.GetAll | cf.h:387-404 | the visitor sees a prefix of the entries in slot order; it said go on for all but the last; if the walk ended early, the visitor said stop for the last entry it saw |
| Format.ParseLine | cf.h:242-321 | a line is too long exactly when it exceeds 128 characters; a skip only happens when comments are not kept; every accepted value is clean; a regular key is a key name with a non-empty value; any other key is "", "#" or ";", and only when comments are kept |
| Format.ParseComment | cf.h:263-280 | comments are skipped exactly when not kept; a kept comment's key is its marker or "" and its value is clean |
| Format.ParseAssignment | cf.h:282-321 | a non-comment line is either accepted with a regular key and a non-empty, clean value or malformed |
| Format.AssignmentParses | cf.h:282-321 | a trimmed line of the form key name, blanks, `=`, blanks, value is accepted with that key and value |
| Format.ParsedIsAssignment | cf.h:282-321 | whatever is accepted has that form |
| Format.AssignmentGrammar | cf.h:242-321 | a line that fits and is not a comment is accepted with a given key and value iff its trimmed form has that shape; otherwise it is malformed |
| Format.BlankLine | cf.h:263-279 | a line of blanks is skipped, or kept as the entry ("", "") when comments are kept |
| Format.CommentTrim | cf.h:256-260 | a comment line padded with blanks trims to the marker followed by the blanks and text after it |
| Format.CommentText | cf.h:267-270 | the text kept for a comment starts at the first non-blank after the marker |
| Format.CommentLine | cf.h:263-280 | a comment line is skipped, or kept as the entry (marker, text) with the text's surrounding blanks removed |
| Format.Step | cf.h:242-328 | one line leaves a well-formed buffer of the same capacity; a stop leaves it unchanged; occupied keys stay put; unique regular keys and compactness are preserved |
| Format.ReadLines | cf.h:242-329 | the result is 0 or -1; the buffer stays well-formed with its capacity; occupied keys stay put; unique regular keys and compactness are preserved |
| Format.Read | cf.h:231-340 | a file that cannot be opened gives -1 and an unchanged buffer; otherwise as ReadLines |
| Format.ReadLinesSplit | cf.h:242-329 | reading a + b is reading a and then, only if that succeeded, reading b from the buffer it left |
| Format.StopsAtBadLine | cf.h:249-254 | a malformed or overlong line after lines that read cleanly ends the read with -1 and exactly the buffer those lines built |
| Format.Write | cf.h:346-378 | one printed string per occupied slot, in slot order, each the printed form of that slot's entry |
| RoundTrip.EntryOrigin | cf.h:361-370 | every listed entry comes from a slot at or after the starting one |
| RoundTrip.EntriesUnique | cf.h:164-198 | a buffer without duplicate regular keys lists none |
| RoundTrip.EntriesOfPacked | cf.h:361-370 | a packed buffer lists exactly the entries it was packed from |
| RoundTrip.CompactIsPacked | cf.h:669-684 | a compact buffer is the packing of its own entries |
| RoundTrip.LineRoundTrip | cf.h:362-367 | each line printed for a writable entry reads back, comments kept, as that entry |
| RoundTrip.CommentRoundTrip | cf.h:263-280 | a printed comment line reads back as the same comment |
| RoundTrip.AssignmentRoundTrip | cf.h:282-321 | a printed `key = value` line reads back as the same entry |
| RoundTrip.PrintedIsClean | cf.h:256-260 | trimming leaves a printed `key = value` line unchanged |
| RoundTrip.PrintedIsAssignment | cf.h:282-321 | a printed `key = value` line has the accepted shape |
| RoundTrip.AppendToPacked | cf.h:164-198 | setting a new (or non-regular) key in a packed buffer with room appends the entry |
| RoundTrip.StepAppends | cf.h:323-328 | reading one printed line into a packed buffer appends its entry |
| RoundTrip.ReadPacked | cf.h:242-329 | reading the lines printed for some entries into a packed buffer appends all of them, in order, and succeeds |
| RoundTrip.WriteThenRead | cf.h:231-378 | reading back, comments kept, what CfWrite printed into a fresh buffer with at least as many slots as entries succeeds and gives the same entries in the same order; a compact buffer read back at its own capacity comes back identical |

## Left out

- File I/O:
  - `fopen`, `fgets`, `fprintf` and `fclose` are not modelled; a file is a list of lines.
  - The -1 that `CfWrite` returns when the file cannot be opened or closed is not modelled.
  - The shared input buffer `xcf_buf` is not modelled.
- Newlines: a line that `CfRead` reads never contains a newline. A character `\0` inside a line, which `strlen` would
  treat as its end, is not modelled, and neither is an empty `fgets` result (which the source would index at -1).
- Format.Read: runs every `CfSetKey` with all allocations succeeding, so an out-of-memory
  failure in the middle of a read is not modelled. A full buffer still stops the read with -1.
- Store.Create: always succeeds. A failed `malloc` in `CfCreate` or `xCfAlloc` (NULL) is not modelled,
  and neither is a negative capacity.
- `CfDestroy`, `xCfAlloc` and `xCfFree`: they only release memory, which has no counterpart here.
- `CfPrKeys`: debug printing to the console.
- Typed.Atoi: out-of-range input is clamped to the 32-bit range. This is what `strtol` does with a
  32-bit `long`; the C standard leaves `atoi` overflow undefined.
- Int width: `int` and `unsigned int` are taken as 32 bits wide.
- Character classes: `isalnum`, `isdigit` and `isspace` are ASCII; locales are not modelled.
- Visitor: the `CfGetAll` callback is a pure function of the entry, so it cannot modify the buffer while it is walked.
- cf.c: the command-line demonstration program is not part of this model.
- Empty key: `CfSetKey` accepts it. Like a comment key it is never looked up and is added in a
  slot of its own.
- Aliasing: `xCfSet` frees a slot's old string before copying the new data (cf.h:697-703), so
  passing a slot's own stored string back as the new value (the pointer `CfGetKey` or `CfGetStr`
  returned for the same key) reads freed memory. Values are modelled as independent strings, so
  this undefined behaviour is not modelled: Arrays.Set and Store.SetKey treat it as a clean replace.
- Format.Write: a comment whose text is empty is printed as its marker followed by one space.
  It reads back as the same comment. `CfSetKey` stores any string, so a key or value may hold a
  newline. Such a slot comes out as one printed string that contains the newline, while in the
  file it spans two or more lines. Splitting the printed text into file lines is not modelled.
- RoundTrip.WriteThenRead: the round trip is proved for writable entries only:
  - the empty key with the empty value;
  - `#` or `;` with a text without blanks at either end;
  - a key name with a non-empty value without blanks at either end.

  No value may contain a newline, and every line must fit in 128 characters.
  Other stored entries do not come back the same (for example, a value with trailing blanks is trimmed).

## Findings

| source | as written | input that shows it | evidently intended | confidence | as-written member | corrected member |
|---|---|---|---|---|---|---|
| cf.h:543-550 | `CfSetStr` allocates strlen(value) + 2 bytes and writes the closing quote at index strlen(value), which is the value's own last character | `CfSetStr(cf, "s", "abc")` stores `"ab"`, so `CfGetStr` returns `ab`; the empty string stores a lone quote and reads back as the default | store `"abc"` (strlen(value) + 3 bytes, closing quote at index strlen(value) + 1), so that `CfGetStr` returns exactly the string set | high; not executed | Typed.SetStrDropsLastChar | Typed.SetStrIntendedRoundTrip |
