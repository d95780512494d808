# ULS: the algorithms under the lexer, verified

ULS (Unified Lexical Scheme) is a lexer library written in C. Under its lexer lie hand-written algorithms over
character buffers, arrays and linked nodes. This project models them in Dafny, in the form the C code has (loops over
arrays, objects with fields, cursors), and proves what they promise. `dafny verify dfyconfig.toml` checks it.

`char` is unsigned in this code base, so a byte is a number from 0 to 255; a C pointer into a buffer is an array and an
offset; a C string argument is a sequence of bytes. C's bit operations are written as arithmetic, C's `%` of a negative
number is written out, and constants are those of the headers under `src/uls/`. Allocation succeeds.

## What is proved

**Numbers of any length** (`Numerals`, `DecStr`, `OutBufs`, `HexConv`, `NumFormat`, `GExpr`). `Val` is what a digit
string denotes and `Text` the one canonical numeral of a number; every arithmetic step on digit strings is exact
against them, also in place. Conversions to hexadecimal give the canonical text, by groups of bits (for octal with the
bits of two digits in hand), by decimal arithmetic in two halves of one buffer, or through a 64-bit register that
cannot overflow; the fast and the slow way agree. Reading a decimal numeral leaves a token that denotes the same real
number, `0.D * 10^n`, with no leading or trailing zero in `D`, and consumes exactly the numeral; printing the token's
general form preserves the value again. Optional digit separators are covered, and the character a lexer has as its
separator when it configures none. A numeral that is written, with or without separators between its digits, is the
numeral that is read, and on any text whatever only one numeral can be read (`NumFormat.ReadOnce`).

**Sort, search and longest match** (`HeapSort`, `TwoPlus`, `TokNames`, `KwHash`). `uls_quick_sort_vptr` is a heap
sort: for any total preorder it leaves a sorted permutation, although each extraction sifts a heap that still counts
the duplicated last slot. On it stand the tables of punctuation keywords, and the search through them returns the
longest keyword at the front of a line, or nothing exactly when there is none. After any series of additions the
identifier table finds what a linear search through the series finds. The check for equal token ids, which looks at
neighbours only, is exact.

**Encodings and input** (`Utf8`, `Transcode`, `FdSource`, `Input`). A text in UTF-8, UTF-16 or UTF-32, in either byte
order, is read in pieces, decoded into words in the tail of the caller's buffer and encoded into the front of the same
buffer. For any series of calls with any sizes, what was put out together with the encoding of what is pending is the
encoding of the text; no write reaches an unread word. Comment skipping stops behind the first end mark in the unread
bytes followed by the rest of the source, counting exactly the line feeds before it, however the source cuts its data.

**Buffers, escapes, records** (`Pool`, `Escape`, `TxtRecord`). The buffer pool keeps two linked lists over a fixed set
of nodes and hands out a smallest buffer that is large enough. Escaping and reading back is the identity. Any sequence
of text records is recovered from what was printed, whatever bytes the texts hold.

## Where the code does not do what one expects

* `uls_get_simple_escape_str` (src/uls_misc.c:407-413) moves its cursor once too often behind a hexadecimal escape, so
  the next character is lost. That may be the closing quote or the terminator. `Escape.HexSwallowsNext` says what is
  read in its place, `Escape.ClosingQuoteLost` and `Escape.TerminatorLost` give the two bad cases, and
  `Escape.LooksExactly` proves for every string that the scan looks at the characters of the standard reading if and
  only if the string holds no hexadecimal escape.
* `uls_fill_fd_isrc_utf8` (src/uls_input.c:502-518) flags the end of the source when a call returns nothing and the file
  has ended, also when a character is still kept back because it did not fit. `FdSource.FillFdIsrcUtf8` proves that this
  happens exactly in the states `StuckAtEnd` describes, `FdSource.RoomForAnyCharacter` that four free bytes rule it out,
  and `FdSource.CharacterLost` gives a file of two characters. `uls_input_read` calls again with whatever room a first
  read has left, so such a call can occur at the end of a buffer. `FdSource.InputRead` proves that no byte is lost or
  repeated on the way, and `FdSource.WholeTextRead` that everything pending is read if and only if it fits.
* A keyword table that ignores case puts only the word that is looked up in upper case. `KwHash.FindStored` proves that
  a stored keyword can be found if and only if it has no lower-case letter, and `KwHash.LowerCaseLost` shows the word
  `if` stored, taken in twice, and not found.
* The branch of `uls_num2stdfmt` for `0.xxx` (src/uls_num.c:902-934) stops on the point instead of behind it and always
  gives zero (`NumFormat.ZeroPointBranch`). `uls_extract_number` skips leading zeros first and never reaches it.

## Model

| member | source | states |
|---|---|---|
| Numerals.DigitRoundTrip | src/uls_prim.c:435-468 | the character printed for a digit value reads back as that value in every radix above it, is never a lower-case letter, and is the zero digit only for zero |
| Numerals.DigitLetters | src/uls_prim.c:435-468 | the digit characters are `0` to `9` and `A` to `Z` in this order, a small letter counts like its capital, and no character is a digit of a radix that is not above its value |
| Numerals.ValPlaces | src/uls_prim.c:435-468 | a digit of a numeral is worth itself times the power of the radix that its place names |
| Numerals.CanonicalUnique | src/uls_num.c:1042-1147 | two upper-case numerals without leading zeros that denote one number are the same text |
| Numerals.TextIsCanonical | src/uls_prim.c:454-468 | every number has a canonical numeral in every radix, and it denotes that number |
| Bytes.ReverseBytes | src/uls_prim.c:896-909 | the bytes of the range stand in reverse order, all others are as they were |
| OutBufs.RoundupBounds | src/csz_stream.c:165-181 | the rounded size is a multiple of the step, and the least one that holds the request |
| OutBufs.OutBuf.Grow | src/csz_stream.c:165-181 | there is room for the request and everything written is still there, in the old buffer or a new one |
| OutBufs.OutBuf.Putc | src/csz_stream.c:269-290 | the byte follows the `k` bytes in front of it, which stay, and so does what stood behind it |
| OutBufs.OutBuf.Append | src/csz_stream.c:304-322 | the string follows the `k` bytes in front of it and is terminated; later bytes stay |
| DecStr.AddDecstr | src/uls_num.c:54-143 | the result, in the same buffer or another, is the canonical decimal of the sum, terminated; nothing else is written |
| DecStr.MulDecstr | src/uls_num.c:145-212 | the result is the canonical decimal of the product, also when it overwrites its operand, within one digit more than the operand up to ten and two up to 99 |
| DecStr.DivDecstrBy16 | src/uls_num.c:214-258 | quotient and remainder in place: the old value is sixteen times the new canonical one plus a remainder below sixteen |
| DecStr.AddPlace | src/uls_num.c:91-130 | one place of the addition: digits set and carry owed keep standing for the whole sum, and the top digit is not zero |
| DecStr.OwedStep | src/uls_num.c:170-196 | one place of the multiplication: what the places above still have to take in is what the carry and the unread digits are worth |
| DecStr.DivideDigit | src/uls_num.c:249-253 | one digit of the long division keeps quotient, remainder and unread digits worth the dividend, the quotient without a leading zero |
| HexConv.Binstr2Hexval | src/uls_num.c:260-271 | up to four binary digits denote the result |
| HexConv.Bin2HexStr | src/uls_num.c:273-304 | the value of the binary numeral is kept; without leading zeros the text is the canonical one |
| HexConv.Quat2HexStr | src/uls_num.c:306-336 | the value of the quaternary numeral is kept; without leading zeros the text is the canonical one |
| HexConv.GetHexanumFromOctal | src/uls_num.c:338-361 | the four bits taken and the bits left make up the two octal digits again |
| HexConv.OctalRead | src/uls_num.c:441-444 | after a digit is fetched the bits in hand and three for each unread digit are still a multiple of four, and there is a digit to fetch |
| HexConv.OctalPrint | src/uls_num.c:429-436 | printing a nibble loses no bit: the text, the bits left and the unread digits denote the numeral |
| HexConv.OctalDone | src/uls_num.c:437-439 | when the digits are used up no bit is left over, so the text denotes the numeral |
| HexConv.Oct2HexStr | src/uls_num.c:363-450 | for every octal string, with leading zeros too, the canonical hexadecimal text of its value |
| HexConv.DecimalFits | src/uls_num.c:535-553 | a number below `radix^n` has at most `n` decimal digits up to radix 10 and `2n` up to 36: the halves of the buffer are large enough |
| HexConv.CvtRadix2DecStr | src/uls_num.c:527-557 | the canonical decimal of any numeral in radix 2 to 36; the two halves of the buffer never corrupt each other |
| HexConv.QuotientShorter | src/uls_num.c:577-584 | a nonzero quotient by sixteen is smaller and at least one digit shorter, so the digits fit and the loop ends |
| HexConv.EmittedText | src/uls_num.c:577-587 | digits emitted least significant first are the canonical text once they are reversed |
| HexConv.CvtGeneric | src/uls_num.c:559-591 | the canonical hexadecimal text of any numeral, behind what the buffer held |
| HexConv.CvtRadix2HexaStrGeneric | src/uls_num.c:593-607 | a hexadecimal text of the same value, the canonical one for a canonical numeral |
| HexConv.CvtRadixToHexadecimalStr | src/uls_num.c:609-644 | the same for the conversions chosen by radix |
| HexConv.GetUint64FromRadixNumstr | src/uls_num.c:37-52 | the register holds the value modulo 2^64 |
| HexConv.LimitFits | src/uls_num.c:678-699 | a numeral within the digit limit of its radix is below 2^64 |
| HexConv.CvtRadixSimpleNum | src/uls_num.c:646-676 | the register conversion of a value below 2^64 keeps the value, canonically for a canonical numeral |
| HexConv.Radix2HexadecimalStr | src/uls_num.c:678-707 | for numerals of any length the value is kept, whichever way is taken |
| HexConv.FastRefinesSlow | src/uls_num.c:609-707 | both conversions, run on one numeral without leading zeros whose value the register holds, put out the same text, the canonical one unless the digits are hexadecimal already and copied |
| NumFormat.SkipPrefixedZeros | src/uls_num.c:713-742 | only zeros and separators are passed, all of them, and the flag tells whether the last was a separator |
| NumFormat.SkipDigits | src/uls_num.c:748-781 | the digits read, in upper case and without separators, are behind what the buffer held; a trailing separator stays unread |
| NumFormat.SkipRadixNumstr | src/uls_num.c:787-813 | what is collected is the canonical numeral of the digits read, leading zeros dropped; nothing exactly when there is no digit |
| NumFormat.CheckExpo | src/uls_num.c:815-848 | the characters passed are, as they stand, an exponent of the value returned, or none are passed and none could be |
| NumFormat.AppendExpo | src/uls_num.c:850-875 | the exponent's canonical decimal with its sign stands behind the token, nothing for zero; read as an exponent it is the one given |
| NumFormat.ExpoSuffixSpells | src/uls_num.c:850-875 | the exponent printed in a token is an exponent text of the token's own exponent, sign included: `E` or `E-` and the canonical decimal |
| NumFormat.ExpoMeans | src/uls_num.c:815-848 | what an exponent text means, sign by sign |
| NumFormat.TrimZeros | src/uls_num.c:1019-1027 | exactly the zeros at the end are cut off |
| NumFormat.TrailingZeros | src/uls_num.c:1019-1037 | zeros behind a significand may move into its exponent without a change of value |
| NumFormat.ScaledIsProduct | src/uls_num.c:1029-1037 | the value a significand and an exponent stand for is the significand times that power of ten |
| NumFormat.ValueIs | src/uls_num.c:887-1040 | a numeral is worth the number its integer and fraction digits write as one, times the power of ten of its exponent less the fraction's length |
| NumFormat.PointBranch | src/uls_num.c:901-1039 | `.xxx`: a token that denotes the numeral read, none exactly when no digit follows the point |
| NumFormat.IntegerBranch | src/uls_num.c:939-1040 | a numeral that starts with a nonzero digit: the token denotes the numeral read |
| NumFormat.ZeroPointBranch | src/uls_num.c:902-934 | the branch for `0.xxx` gives zero whatever the fraction is |
| NumFormat.Num2StdFmt | src/uls_num.c:887-1040 | the token denotes the numeral that was read, and there is none exactly when there is no numeral |
| NumFormat.SpellingUnique | src/uls_num.c:887-1040 | a text spells at most one decimal numeral, so `the numeral read` is well defined |
| NumFormat.ExtractDecimal | src/uls_num.c:1042-1147 | every decimal numeral, with leading zeros, fraction, exponent and separators, becomes `0`, `0.`, its digits, or `.D` with an exponent, of exactly its value; the token text by itself is a decimal numeral of that value; all of it is consumed; no separator stands in the exponent, and elsewhere each stands between two digits or behind zeros only; -1 exactly when no numeral starts there |
| NumFormat.ZeroToken | src/uls_num.c:1096-1147 | the token is `0` or `0.` exactly for numerals of value zero |
| NumFormat.TokenWrites | src/uls_num.c:1042-1147 | every token is itself the spelling of a decimal numeral of the value it denotes, so its text alone carries the value |
| NumFormat.ReadsVerbatim | src/uls_num.c:1042-1147 | without separators the numeral is the text between the cursors, character by character |
| NumFormat.ReadOnce | src/uls_num.c:887-1147 | the two conditions on what is read, where separators may stand and that nothing continues it, leave one numeral for every text; up to one place, too, except that of two separators behind a fraction of zeros the first may be passed or not |
| NumFormat.WrittenOnce | src/uls_num.c:1042-1147 | a text begins with at most one decimal numeral that nothing behind it continues |
| NumFormat.ReadsWhatIsWritten | src/uls_num.c:1096-1147 | where a numeral is written, its digits grouped by separators in any way or not at all, and the text behind it neither continues it nor begins with a separator, that numeral and no other is read, to its end |
| NumFormat.ExtractPrefixed | src/uls_num.c:1051-1094 | behind a radix prefix: the standard prefix and the canonical numeral of the digits, plain `0` for zero; without a digit the prefix alone or the zero it begins with |
| GExpr.UlsNumberDenotes | src/uls_num.c:1155-1212 | significand, fraction and exponent taken from a token denote its value |
| GExpr.StandardPrefixes | src/uls_prim.c:525-558 | `0x`, `0o`, `0b`, `0t` and `0q` stand for the radices 16, 8, 2, 3 and 4, and any other text has no prefix |
| GExpr.UlsNumberPrefixed | src/uls_num.c:1155-1212 | a prefixed token: its radix, and all its digits in front of the point |
| GExpr.UlsNumberInteger | src/uls_num.c:1155-1212 | a zero token has no digits left, an integer token is its own digits |
| GExpr.MakeDecstrGExpr | src/uls_num.c:1214-1251 | the plain decimal with a point denotes the token's value; none exactly when it would be too long |
| GExpr.MakeRadixintStrGExpr | src/uls_num.c:1253-1294 | `0x` and hexadecimal digits of the value the prefixed token denotes |
| GExpr.ReaderTokens | src/uls_num.c:1042-1147 | every token the numeral reader makes is one the general form is proved for |
| GExpr.NumberGexpr | src/uls_num.c:1296-1338 | whenever a text is produced it denotes the token's number, sign kept, and behind `0x`, `0o`, `0b`, `0t` or `0q` it is `0x` and a hexadecimal numeral of the value the digits have in radix 16, 8, 2, 3 or 4; it says for which tokens none is |
| HeapSort.GaussLog2 | src/uls_misc.c:113-131 | the greatest power of two not above `n`, and its exponent |
| HeapSort.RootIsGreatest | src/uls_misc.c:144-201 | nothing in a heap is greater than its root |
| HeapSort.SiftedOnce | src/uls_misc.c:144-185 | promoting the greater child and sifting its subtree leaves a heap, a permutation, with every twin of the old root in its place |
| HeapSort.HeapArray.DownHeap | src/uls_misc.c:144-185 | the subtree becomes a heap, nothing outside it moves, the elements are permuted |
| HeapSort.TopReplaced | src/uls_misc.c:187-201 | with the last element copied to the root all proper subtrees are heaps, the last slot included |
| HeapSort.HeapArray.ExtractTop | src/uls_misc.c:187-201 | the old root ends in the last slot and the others form a heap, although the sift ran over the old size |
| HeapSort.LevelsMatch | src/uls_misc.c:203-230 | the power-of-two bounds of consecutive levels meet: no inner node is left out |
| HeapSort.HeapArray.Build | src/uls_misc.c:203-230 | any array becomes a heap of its own elements |
| HeapSort.SortingStep | src/uls_misc.c:304-325 | one extraction keeps the greatest elements sorted at the end, the rest a heap, nothing lost |
| HeapSort.QuickSortVptr | src/uls_misc.c:304-325 | for any total preorder the first `n` slots end as a sorted permutation, the others untouched |
| HeapSort.BiSearchVptr | src/uls_misc.c:327-351 | an index that holds the key, and -1 exactly when no element does |
| TwoPlus.LengthIsOrder | src/twoplus.c:77-89 | the comparison by length is a total preorder |
| TwoPlus.KeywordIsOrder | src/twoplus.c:91-100 | the comparison by keyword is a total preorder |
| TwoPlus.StrCmpAt | src/uls_prim.c:953-974 | two texts compare as the first characters in which they differ, and are equal only if they end together |
| TwoPlus.PrefixCmp | src/twoplus.c:37-75 | zero exactly when the keyword is a prefix of the line, else the sign of the first difference |
| TwoPlus.NoneAbove | src/twoplus.c:37-75 | if the line is below a keyword, no later keyword of the table is its prefix |
| TwoPlus.NoneBelow | src/twoplus.c:37-75 | if the line is above a keyword, no earlier keyword of the same number of characters is its prefix |
| TwoPlus.TwoplusBiSearch | src/twoplus.c:37-75 | a keyword that is a prefix of the line, and nothing exactly when the table has none |
| TwoPlus.KwtableTwoplus.constructor | src/twoplus.c:115-129 | all tables are empty and the keywords are in the pool |
| TwoPlus.KwtableTwoplus.FillGroup | src/twoplus.c:230-250 | one run of equal length goes into the table of that length, sorted |
| TwoPlus.KwtableTwoplus.LinkEmpty | src/twoplus.c:264-274 | every empty table leads to the nearest shorter one that is not empty, the others' links stay |
| TwoPlus.KwtableTwoplus.MarkFirst | src/twoplus.c:223-228 | exactly the characters that start a keyword get the mark, their other seven bits and all other characters stay as they were |
| TwoPlus.KwtableTwoplus.DistributeTwoplusToks | src/twoplus.c:206-275 | every keyword is in the table of its length, as often as in the pool and in order; the chain runs from the longest through all tables that are not empty; first characters are marked, with no other bit changed |
| TwoPlus.SearchWidth | src/twoplus.c:172-188 | no keyword at the front of the line has more characters than the search starts with |
| TwoPlus.SearchChain | src/twoplus.c:190-203 | the walk down the chain meets the longest keyword first, or has ruled out every table |
| TwoPlus.IsKeywordTwoplus | src/twoplus.c:163-204 | the keyword with the most characters among those at the front of the line; nothing exactly when none is there |
| TwoPlus.LongestIsUnique | src/twoplus.c:163-204 | two longest keywords at the front of one line are the same text |
| TokNames.Partition | src/uld_conf.c:311-323 | a permutation with the named tokens in front of the unnamed ones, and their number |
| TokNames.UldPrepareNames | src/uld_conf.c:302-336 | the named tokens form a sorted prefix of a permutation |
| TokNames.UldFindTokdefVx | src/uld_conf.c:187-200 | a token of that name, and none exactly when no named token has it |
| TokNames.UldPostNames | src/uld_conf.c:386-417 | accepts exactly when all token ids are pairwise different, by comparing neighbours after a sort |
| TokNames.DistinctPermuted | src/uld_conf.c:386-417 | whether ids are distinct does not depend on their order |
| KwHash.IndexOfSum | src/idkeyw.c:102-103 | C's remainder, corrected once, is an index of the table for negative sums too |
| KwHash.HashFunc | src/idkeyw.c:82-146 | the unrolled loops compute the weighted sum modulo the table size, of the word or of its upper-case form |
| KwHash.HashByCharacter | src/idkeyw.c:82-146 | nothing hashes to 0, and a further character adds itself, as its capital where case is ignored, times the weight of its place modulo three, modulo 37 |
| KwHash.KeyKeepsHash | src/idkeyw.c:124-146 | a word and its upper-case form fall into the same bucket |
| KwHash.KeywStrncmp | src/idkeyw.c:64-122 | zero exactly when the stored keyword is the word, character by character, small letters as capitals where case is ignored |
| KwHash.Kwtable.FindKw | src/idkeyw.c:192-212 | an entry whose keyword is the word, small letters as capitals where case is ignored, and nil exactly when no bucket of the table holds one; the hash is in range |
| KwHash.Kwtable.OnlyInItsBucket | src/idkeyw.c:192-212 | a keyword stored anywhere is in the bucket of its hash |
| KwHash.Kwtable.AddKw | src/idkeyw.c:214-234 | the entry joins exactly when its key is not stored yet; then the table holds that keyword and that entry more, nothing else changes, every bucket holds only its own hash, and no keyword that a look-up can give out stands there twice |
| KwHash.AddAll | src/idkeyw.c:214-234 | after any series of additions to an empty table exactly those entries are in it whose key no earlier entry of the series has |
| KwHash.AddAllThenFind | src/idkeyw.c:192-234 | after any series of additions a look-up gives the first entry of the series that equals the word, small letters as capitals where case is ignored, and nil exactly when there is none: what a linear search through the series gives |
| KwHash.KeyStored | src/idkeyw.c:192-234 | a keyword that is its own key is stored exactly when some entry of the series has it |
| KwHash.FoundIgnoringCase | src/idkeyw.c:106-146 | with upper-case entries a word is found exactly when an entry differs from it in the case of letters at most |
| KwHash.OwnKey | src/idkeyw.c:106-122 | ignoring case, a keyword is some word's key if and only if it has no lower-case letter, and then it is its own |
| KwHash.FindStored | src/idkeyw.c:192-212 | a stored keyword is given out for itself if and only if the table does not ignore case or the keyword has no lower-case letter; otherwise for no word at all |
| KwHash.AddTwice | src/idkeyw.c:214-234 | the second of two entries with one keyword is refused if and only if the keyword is its own key |
| KwHash.LowerCaseLost | src/idkeyw.c:106-122 | the word `if` in a table that ignores case: stored, taken in a second time, and not found |
| Utf8.EncodeUtf8 | src/uls_prim.c:1869-1912 | the bytes of RFC 3629 section 3, their number, or that number negated and nothing written when there is no room |
| Utf8.Spelled | src/uls_prim.c:1869-1912 | the one to four bytes of a code point, written out |
| Utf8.DecodeUtf8 | src/uls_prim.c:1914-1968 | the first character with its length, how many bytes it would take when it is cut off, or an error |
| Utf8.Malformed8 | src/uls_prim.c:1914-1968 | which bytes begin no character and with which code, which are cut off, and that a byte that is no lead byte counts as a character |
| Utf8.DecodesEncoded8 | src/uls_prim.c:1869-1968 | decoding an encoded code point gives it back, whatever follows |
| Utf8.BeginsEncoded8 | src/uls_prim.c:1914-1968 | a proper beginning of a character is reported as cut off, never as malformed |
| Utf8.EncodeUtf16 | src/uls_prim.c:1970-2001 | the units of RFC 2781 section 2.1, or how many there would be |
| Utf8.Spelled16 | src/uls_prim.c:1970-2001 | the upper half of a pair comes first, each half has a range of its own, and together they give the code point |
| Utf8.DecodeUtf16 | src/uls_prim.c:2003-2039 | the first character of the units, or why there is none |
| Utf8.Malformed16 | src/uls_prim.c:2003-2039 | which units begin no character, and which are half a pair |
| Utf8.DecodesEncoded16 | src/uls_prim.c:1970-2039 | decoding the units of a code point that is no surrogate gives it back, whatever follows |
| Utf8.BeginsEncoded16 | src/uls_prim.c:2003-2039 | half a surrogate pair is reported as cut off |
| Utf8.UstrNumWchars | src/uls_prim.c:2067-2103 | the number of characters, or -1 for a malformed one |
| Utf8.CountOneMore | src/uls_prim.c:2067-2103 | an encoded character in front counts one more, a cut-off one at the end does not count, a malformed one gives -1 |
| Transcode.CharsCounted | src/uls_prim.c:2067-2103 | the UTF-8 text of `n` code points counts `n` characters |
| Utf8.PrefixHasFewerChars | src/uls_prim.c:2067-2103 | a well-formed prefix has no more characters than the text, and as many only if it is the text |
| Utf8.CharsBoundBytes | src/uls_prim.c:2067-2103 | a well-formed text of `n` characters has at most `4n` bytes |
| Transcode.Descriptor.Readn | src/utf8_enc.c:351-361 | all the bytes asked for unless the file ends before, or an error |
| Transcode.ReverseUnits | src/utf8_enc.c:419-424 | units in the other byte order become units of the machine, one by one |
| Transcode.UnitBytes | src/utf8_enc.c:419-424 | a unit of two or four bytes stands in a file low byte first, or last where the order is reversed |
| Transcode.ThreeCharacters | src/utf8_enc.c:364-457 | `A`, the euro sign and a character beyond 16 bits as units of each encoding |
| Transcode.FrontChar | src/utf8_enc.c:364-457 | with any number of units in memory the decoder finds the first character of the text, or a beginning of it, never an error |
| Transcode.Inbuf.constructor | src/utf8_enc.c:191-212 | the whole text is pending |
| Transcode.Inbuf.FillRawbuf | src/utf8_enc.c:334-495 | units in memory and units in the file are the same text as before; the end is flagged exactly when nothing is left to read |
| Transcode.Inbuf.DecRawbuf | src/utf8_enc.c:364-512 | the code points delivered and the pending ones are the text; a character cut off by the end of the units waits for more |
| Transcode.Inbuf.Drain | src/utf8_enc.c:299-332 | delivers a beginning of the pending text across any number of refills, all of it or as much as fits |
| Transcode.UnreadUntouched | src/utf8_enc.c:106-189 | writing a character does not reach a word that is still to be read, even in the same buffer |
| Transcode.FillUtf8str | src/utf8_enc.c:106-132 | the words become their UTF-8 text, also when they stand in the tail of the buffer that is written |
| Transcode.FillUtf8buf | src/utf8_enc.c:134-189 | what is written is the UTF-8 of a beginning of the pending text; it stops only at the end of the text or when the next character does not fit |
| Transcode.FillSeries | src/utf8_enc.c:134-189 | for any series of sizes, the output so far and the encoding of what is pending is the encoding of the text |
| Transcode.FillToEnd | src/utf8_enc.c:134-189 | calling until nothing comes puts out the encoding of the whole text |
| FdSource.FillFdIsrcUtf8 | src/uls_input.c:502-518 | the end of the source is flagged with a character pending if and only if the next one does not fit and the file is at its end |
| FdSource.RoomForAnyCharacter | src/uls_input.c:502-518 | with four free bytes that state is impossible |
| FdSource.CharacterLost | src/uls_input.c:502-518 | a file of two characters on a descriptor that never fails: the end is flagged and the second character is still pending |
| FdSource.InputRead | src/uls_input.c:385-405 | for any pieces the descriptor gives, unless it fails: the bytes that came in and the encoding of what is pending are the encoding of what was pending, what the buffer held before is kept, and the read stops only where the next character does not fit |
| FdSource.WholeTextRead | src/uls_input.c:385-405 | such a read takes in the whole pending text if and only if it fits into the free bytes; only if it does not can the end be flagged in front of a character |
| FdSource.KeepsSourcePromise | src/uls_input.c:385-405 | what a call promises of code points gives what the input buffer asks of a source of bytes: they are conserved, and none come only at the end or without room for a character |
| Input.InputRead | src/uls_input.c:385-405 | the bytes read and those still to come are the bytes that were to come; nothing only at the end or without room for a character |
| Input.InputBuf.RegulateRawbuf | src/uls_input.c:444-455 | the unread bytes move to the front unchanged |
| Input.InputBuf.ResizeRawbuf | src/uls_input.c:457-480 | the unread bytes survive every change of size, which is at least what was asked for |
| Input.InputBuf.RefillBuffer | src/uls_input.c:414-442 | unread bytes and rest of the source are the same stream; fewer bytes than asked for only at its end |
| Input.SkipOne | src/uls_input.c:118-144 | skipping a byte where the mark does not stand keeps the count of line feeds and misses no occurrence |
| Input.CountsLineFeeds | src/uls_input.c:118-144 | the count is the number of line feed characters in the text, nothing for none |
| Input.InputSkipComment | src/uls_input.c:105-151 | for any sizes the source returns, unless it fails: 1 with the cursor behind the first end mark of the stream and exactly the line feeds before it counted, or 0 when the mark occurs nowhere |
| Pool.CszGlobal.constructor | src/csz_stream.c:112-129 | all 32 nodes are inactive and hold nothing |
| Pool.CszGlobal.EveryNodeListed | src/csz_stream.c:44-147 | in every reachable state each node of the fixed set is on exactly one of the two lists |
| Pool.DetachKeeps | src/csz_stream.c:56-77 | moving a node to the inactive list keeps both lists linked, disjoint and complete, the active one in descending order |
| Pool.InsertKeeps | src/csz_stream.c:90-107 | so does putting a buffer into the first inactive node at its place |
| Pool.BestFitAt | src/csz_stream.c:56-60 | where the walk stops, no smaller buffer would do |
| Pool.CszGlobal.FindInPool | src/csz_stream.c:44-80 | a smallest buffer of at least the size leaves the pool and no other does; nothing exactly when none is large enough |
| Pool.CszGlobal.ReleaseInPool | src/csz_stream.c:82-110 | the buffer joins at its place by size; refused exactly when it is empty or all nodes are in use |
| Pool.CszGlobal.ResetCszPool | src/csz_stream.c:131-147 | no buffer is left and every node is inactive |
| Escape.SkipAtox | src/uls_prim.c:1154-1184 | the value, in radix 16, of the hexadecimal digits at the front, at most `max`, and the cursor behind them |
| Escape.EscapeMeans | src/uls_misc.c:353-443 | what each of `n t r b a f v`, the backslash, both quotes and `?` stands for behind a backslash; any other character is kept with its backslash |
| Escape.ScanEnds | src/uls_misc.c:385-443 | the scan ends behind the closing quote, or at the terminator, with or without a text |
| Escape.UnescapeMeans | src/uls_misc.c:445-468 | with which letter each character that needs a backslash is written |
| Escape.RoundTrip | src/uls_misc.c:353-489 | reading an escaped text gives it back, up to the terminator without a quote or up to a quote behind it |
| Escape.GetSimpleEscapeStr | src/uls_misc.c:385-443 | the text, where the cursor ends, or -1 for a missing quote, as the scan of the whole string decides |
| Escape.GetSimpleUnescapeStr | src/uls_misc.c:470-489 | the escaped form of the whole text, terminated |
| Escape.UnescapedPair | src/uls_misc.c:353-468 | the letter written behind a backslash is read as the character it stands for |
| Escape.HexSwallowsNext | src/uls_misc.c:407-413 | behind a hexadecimal escape the scan goes on one character too late |
| Escape.LooksExactly | src/uls_misc.c:385-443 | for every string, the characters the scan looks at are those of the standard reading if and only if the string holds no hexadecimal escape |
| Escape.EndsAtLastLook | src/uls_misc.c:385-443 | the cursor that is returned stands where the scan looked last, or behind the closing quote it found there |
| Escape.StandardWithoutHex | src/uls_misc.c:385-443 | every string without a hexadecimal escape is read as the standard reading has it |
| Escape.StandardExactly | src/uls_misc.c:385-443 | the text, too, is that of the standard reading if and only if there is no hexadecimal escape, where that reading accepts the string and no backslash stands right behind such an escape |
| Escape.ClosingQuoteLost | src/uls_misc.c:407-413 | `\x41` in front of the closing quote is reported as a string without an end |
| Escape.TerminatorLost | src/uls_misc.c:407-413 | without a quote the scan of a text that ends in a hexadecimal escape runs over its terminator |
| TxtRecord.LfNumberU | src/uls_prim.c:63-99 | the canonical decimal at the end of the buffer |
| TxtRecord.FieldOfFive | src/uls_ostream.c:129-130 | an integer in a field of five characters: at its end, blanks in front, wider only if the integer is |
| TxtRecord.DecimalIs | src/uls_ostream.c:129-130 | the text of an integer is the canonical decimal of its size, behind a minus sign exactly if it is negative |
| TxtRecord.RecordLaidOut | src/uls_ostream.c:120-138 | the parts of a record and where they stand: id, blank, length, blank, text, line feed |
| TxtRecord.MakePktTxt | src/uls_ostream.c:120-138 | the record stands behind what the stream held: id and length in five columns, the text, a line feed |
| TxtRecord.IsPureInteger | src/uls_prim.c:560-595 | the value of the integer at the front, and its length, negated when something follows |
| TxtRecord.Splitint | src/uls_misc.c:48-63 | the integer behind the blanks, and the cursor behind it |
| TxtRecord.PrintedHeader | src/uls_context.c:102-129 | a printed header, whatever follows it, is one the parser reads to its end |
| TxtRecord.GetTxthdr1 | src/uls_context.c:102-129 | id, length and text of the record; -1 with nothing changed exactly when the text is not complete |
| TxtRecord.ReadRecords | src/uls_context.c:102-129 | repeated parsing gives back the printed records, whatever bytes the texts hold |
| TxtRecord.RoundTrip | src/uls_ostream.c:120-138 | printing any sequence of records and parsing what was printed returns the sequence |

## Left out

- DecStr.AddDecstr: does not model a negative digit count, which stands for the length of the string, nor a negative addend; no caller passes either.
- DecStr.MulDecstr: does not model a negative digit count or a negative multiplier, for the same reason.
- HexConv.Quat2HexStr: with leading zeros only the value is stated, because the text then keeps them.
- HexConv.CvtRadixSimpleNum: the target radix is 16, as in every call.
- NumFormat.ExtractDecimal: exponents are unbounded integers and the digits of an exponent have as much room as they need; the C code keeps them in an `int` and in a fixed scratch array.
- NumFormat.ExtractPrefixed: the token starts at the front of the buffer, as in every call.
- GExpr.NumberGexpr: is stated for the tokens the numeral reader makes, with an optional sign; `GExpr.ReaderTokens` says that they are all covered.
- HeapSort.QuickSortVptr: fewer than 2^31 elements, above which the C code's index arithmetic wraps around.
- HeapSort.BiSearchVptr: the key and the comparison are one function that says where an element lies, and the array is a value, as it is not changed.
- TwoPlus.IsKeywordTwoplus: the line is well formed up to its first space; on a malformed one the search starts with a negative number of characters.
- TwoPlus.KwtableTwoplus: the trees are objects with links, the sorted contents of a tree a sequence that is replaced as a whole.
- KwHash.AddAll: a series may offer the same entry twice only if its keyword is its own key; linking an entry that is on a chain already would cut the chain.
- KwHash.HashFunc: sums are unbounded integers; in C they are of type `int`.
- Transcode.Inbuf.Drain: malformed texts; the error returns for them, and for words that do not fit where they always do, are not part of the model.
- Transcode.Descriptor.Readn: a descriptor is the bytes that are still to come; a faulty one may fail at any call.
- Input.InputRead: a source flags its end only when nothing is left to deliver. `FdSource.FillFdIsrcUtf8` says in which states one kind of source breaks this, and `FdSource.InputRead` what a read from that source promises all the same; the comment search is not repeated over it.
- Input.InputBuf.RefillBuffer: the pause between two reads, and requests above the initial buffer size less one character.
- Pool.CszGlobal.FindInPool: the mutex around the pool, and the allocation when no buffer is found.
- Escape.SkipAtox: the number is unbounded; in C it is an `unsigned int`, and no caller asks for more digits than that holds.
- Escape.GetSimpleEscapeStr: where the C code reads beyond the terminator the model returns -2.
- Escape.StandardExactly: the text is compared for strings that the standard reading accepts and in which no backslash stands right behind a hexadecimal escape, where the two readings can meet again by chance; `Escape.LooksExactly` has no such bound.
- TxtRecord.MakePktTxt: the least `int` as a token id, and a missing text.
- TxtRecord.Splitint: is stated for an integer behind blanks, which a printed header always has.
- TxtRecord.ReadRecords: the reader of the last bytes of a file, `get_txthdr_2`, and how the loop waits for a complete record.
- The unused conversion `uls_dec2hex_str`, and the byte-array variants of sort and search, which would only repeat proofs.
- The separator is fixed for a scan; the configuration that chooses one is not part of this model.
- Renaming of tokens and the search for a name after it has broken the order of the table.
- Files, processes, logging, code generation, language databases, literal-string analysers, the context stack: input and output, or large and of a different kind.
- Allocation failure, mutexes, reference counts and the release of memory.
