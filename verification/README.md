# Verified models of three Berkeley DB algorithms

The repository's utilities and public header hold three pieces of algorithmic code. Each is modelled
here in the form it has in C: buffers are arrays that are written in place, the utilities' state is the
state of classes, and every loop is a loop with invariants. Specification functions say what the methods
compute, and lemmas prove what those functions are for.

* **Bulk buffers** (`Bulk.dfy`, `BulkBuffer.dfy`, `BulkRoundTrip.dfy`, `Words.dfy`): the `DB_MULTIPLE_*`
  macros over one byte array, in which item bytes grow up from the front and a table of 32-bit words
  grows down from the end. `Layout` is the invariant that ties the bytes to the items written.
* **Dump and load text** (`Text.dfy`, `Numbers.dfy`, `Dumper.dfy`, `Loader.dfy`, `Load.dfy`, `Recno.dfy`,
  `Header.dfy`, `HeaderReader.dfy`, `WholeFile.dfy`, `RoundTrip.dfy`, `HeaderText.dfy`, `WrittenFile.dfy`): what
  `db_dump185` and `db_dump` print and how `db_load` reads it, with growing buffers, streamed items, a header
  that is saved and read again, and files of any number of databases.
* **The page-size simulator** of `db_tuner` (`TunerSpec.dfy`, `Tuner.dfy`, `TunerFacts.dfy`,
  `TunerPacking.dfy`, `TunerDups.dfy`, `TunerRuns.dfy`, `TunerBytes.dfy`, `NextFit.dfy`, `Sums.dfy`): eight page sizes at once, as
  functions from the pages of a database to insertions and from insertions to simulated pages, and the
  statistics arrays that a `Tuner` object updates in step with them.
* `Bits.dfy` has the alignment and power-of-two macros on bits.

The main results, each for all inputs:

* A batch is accepted by a bulk buffer exactly if item bytes, table and sentinel fit, in any order, and
  is read back as it was written. In the recno format that holds exactly if no record number is 0.
* A dumped database, header and records, loads as the same pairs and settings; it fails exactly if a
  header field was negative or an item outgrows its buffer, which hex data items never do when they
  are streamed.
* A file of versions 2 and 3, with any number of btree and hash databases under any headers, is loaded
  database by database up to its end, each with exactly the pairs and settings that were written; loading
  stops exactly at the first that a number, a version or an item makes too large.
* Reading a header again from its saved copy sets the same fields on the same lines if the lines before
  its last have no zero byte; and only then, unless a piece behind such a zero ends the header by itself.
  Zeros in the last line, behind `HEADER=`, change nothing.
* The simulated leaf pages are at most twice the fewest possible, less one, and so are the duplicate
  pages of each set; overflow pages never increase with the page size; and the recommendation is the
  one the totals call for. Which bytes an insertion takes is counted from the page layout alone, and the
  pages counted have room for all of them.

Findings about the code, all proved:

* A recno buffer with a zero record number reads as if it ended there (`Bulk.ReadBack`).
* An odd last key is dropped in silence, although the text for that case reports an odd number of pairs
  (`Load.LoadRecords`).
* A print-mode buffer doubles to 2^31 and then to 0, so the largest item it can hold is 2^31 - 10 bytes
  (`Loaders.Loader.StoreByte`); hex items grow to 2^32 - 11 (`Loaders.Loader.StorePair`).
* A negative `ffactor`, `lorder` or `bsize` is dumped as a number that `db_load` refuses
  (`WholeFiles.DumpedHeaderIsRead`).
* A pad character is dumped as a number in hex, of which the loader takes the first character, so it
  always comes back as the digit zero (`HeaderTexts.PadIsLost`).
* A btree or hash that the command line says has no keys is reported and then loaded without keys
  (`RoundTrips.KeyFlagExactly`).
* A header with a zero byte before its last line loads once and may be refused when it is read again
  (`Headers.ZeroInHeader`); such zeros go unnoticed only where a piece behind one of them ends the header
  (`Headers.EarlyHeader`).
* A leaf page whose scan meets a deleted key, or a deleted single data item, is never finished
  (`TunerSpec.ScanEndsExactlyWhenScannable`).
* A set that stays on the page loses its key when its first data item is deleted (`TunerFacts.GroupIsChargedOnce`).
* The first page of an off-page set is charged once for every page of the chain
  (`TunerFacts.ChainIsExactWhenItRepeats`).
* Because of a 16-bit cast, the space added up for a set is its true space exactly if all its items are
  below 65530 bytes (`TunerFacts.SetSpaceIsFull`), and a set of 128 kilobytes can look small enough to
  stay on a page of 512 bytes (`TunerFacts.CastKeepsLargeSet`). The space of an off-page set must also
  be below 2^32 (`TunerFacts.ChainSpaceIsFull`).

Conventions: a `char` is signed, so codes from 128 on pass the digit test; words are stored with the
least significant byte first; addresses into a bulk buffer are unbounded integers, so an address test may
look below the array. 32-bit lengths, 16-bit casts and 64-bit differences are written out where they are
used. `isprint` is an arbitrary predicate on bytes.

## Model

| member | source | states |
|---|---|---|
| Words.StoreWord | build_vxworks/db.h:2085-2085 | Storing a 32-bit word changes exactly its four bytes and the word reads back as stored |
| Bulk.WordsArePlaced | build_vxworks/db.h:2012-2029 | Where the table of a written buffer lies: offset and length of each item, and its record number, at fixed addresses down from the end, then the sentinel |
| Bulk.AppendKeepsLayout | build_vxworks/db.h:2093-2101 | An append that passes the test keeps every earlier item and table entry, adds exactly the new item, and leaves data and table apart |
| Bulk.FreeIsSumOfLengths | build_vxworks/db.h:2091-2092 | The free offset is the sum of the lengths of all items |
| Bulk.StoredWordsAreExact | build_vxworks/db.h:2098-2100 | No stored offset or length is truncated, and none equals the -1 sentinel |
| Bulk.ReadBack | build_vxworks/db.h:2034-2078 | Iterating over a written buffer gives the items before the first zero record number and then ends: all that was written, if and only if the format is plain or no record number is zero |
| Bulk.NullItemsAreTheLeadingEmptyRun | build_vxworks/db.h:2045-2046 | An item is empty and at the start of the buffer exactly if it and all items before it are empty |
| BulkRoundTrips.NextAtItem | build_vxworks/db.h:2034-2047 | At the entry of any written item DB_MULTIPLE_NEXT keeps the pointer live and returns the item's bytes, with NULL data exactly for the items of the leading run of empty ones |
| Bulk.CapacityIsExact | build_vxworks/db.h:2093-2094 | All appends of a sequence succeed if and only if its bytes plus its table plus one sentinel word fit ulen |
| Bulk.AcceptanceIgnoresOrder | build_vxworks/db.h:2093-2094 | Whether a batch is accepted does not depend on its order |
| BulkBuffers.FreeOffsetRecovered | build_vxworks/db.h:2091-2092 | The sum of the last two header words is the free offset, without wrap-around |
| BulkBuffers.OverwriteKeepsLayout | build_vxworks/db.h:2113-2113 | Copying into a reserved item changes that item and nothing else |
| BulkBuffers.AppendPairKeepsLayout | build_vxworks/db.h:2121-2136 | A key/data reserve is two appends, although no sentinel is stored between them |
| BulkBuffers.BulkBuffer.WriteInit | build_vxworks/db.h:2080-2086 | The buffer holds no item, is marked as bulk, and only the sentinel word is written |
| BulkBuffers.BulkBuffer.RecnoWriteInit | build_vxworks/db.h:2153-2159 | The same with the zero sentinel of the recno format |
| BulkBuffers.BulkBuffer.FreeOffset | build_vxworks/db.h:2091-2092 | The offset at which the next item starts, recovered from the buffer alone |
| BulkBuffers.BulkBuffer.ReserveNext | build_vxworks/db.h:2088-2103 | Room for one item of the given length is added if it fits; a rejected reserve changes no byte |
| BulkBuffers.BulkBuffer.WriteNext | build_vxworks/db.h:2105-2114 | The item with its bytes is appended if it fits and earlier bytes stay, or the pointer is NULL and no byte changes |
| BulkBuffers.BulkBuffer.KeyReserveNext | build_vxworks/db.h:2116-2137 | Room for a key and its data item is added as a whole or not at all |
| BulkBuffers.BulkBuffer.KeyWriteNext | build_vxworks/db.h:2139-2151 | Both items with their bytes are appended, or no byte changes |
| BulkBuffers.BulkBuffer.RecnoReserveNext | build_vxworks/db.h:2161-2177 | Room for one item under a record number is added if it fits; a rejected reserve changes no byte |
| BulkBuffers.BulkBuffer.RecnoWriteNext | build_vxworks/db.h:2179-2188 | The numbered item is appended if it fits, or no byte changes |
| BulkBuffers.BulkBuffer.ReadInit | build_vxworks/db.h:2030-2032 | Reading starts at the last word, where both formats have their first entry |
| BulkBuffers.BulkBuffer.Next | build_vxworks/db.h:2034-2047 | The pointer becomes NULL exactly at the sentinel; otherwise offset and length of the entry are returned, NULL data for a zero entry |
| BulkBuffers.BulkBuffer.KeyNext | build_vxworks/db.h:2049-2063 | As above for the two entries of a pair, with no NULL data |
| BulkBuffers.BulkBuffer.RecnoNext | build_vxworks/db.h:2065-2078 | As above for a numbered entry; record number 0 ends the table |
| BulkRoundTrips.WriteBatch | build_vxworks/db.h:2080-2114 | Appending a batch item by item accepts all of it exactly if its whole space fits, and otherwise exactly the items before the first that makes it too large |
| BulkRoundTrips.ReadItems | build_vxworks/db.h:2030-2047 | Iterating until the pointer is NULL gives exactly the items written, empty ones at the start included |
| BulkRoundTrips.WritePairs | build_vxworks/db.h:2139-2151 | The same as WriteBatch for key/data pairs |
| BulkRoundTrips.ReadPairs | build_vxworks/db.h:2049-2063 | Iterating over a key/data buffer gives exactly the pairs written |
| Bits.AlignIsLeastMultiple | build_vxworks/db_int.h:237-240 | For a power-of-two bound DB_ALIGN gives the least multiple of the bound that is at least v, as long as v + bound - 1 does not wrap |
| Bits.PowerOfTwoIsExact | build_vxworks/db_int.h:212-213 | POWER_OF_TWO(x) holds exactly for zero and the powers of two |
| Bits.ValidPagesizesAreTheEight | build_vxworks/db_int.h:215-219 | IS_VALID_PAGESIZE holds exactly for the eight sizes 512 << i that the tuner simulates |
| Text.UnhexInvertsHexText | util/db_dump185.c:314-325 | Hex text is one line of complete pairs, and decoding it gives the bytes back |
| Text.UnescapeInvertsPrintText | util/db_dump185.c:331-347 | Escaped text has only complete escapes, and decoding it gives the bytes back, whatever counts as printable |
| Text.PrintTextIsOneLine | util/db_dump185.c:337-347 | The escaped text of an item contains a newline exactly if the item has a newline that counts as printable |
| Text.UnescapeShrinks | util/db_load.c:1325-1326 | The decoded bytes are never more than the characters they come from |
| Text.HexTextAt | util/db_dump185.c:314-325 | Each byte is two of the digits 0 to 9 and a to f, the high one first |
| Text.PrintTextAt | util/db_dump185.c:331-347 | Each byte is itself if printable and no backslash, two backslashes if a printable one, and a backslash with its two digits exactly if not printable |
| Text.PrintTextLength | util/db_dump185.c:331-347 | The text has one character for each byte, one more for each printable backslash and two more for each byte that is not printable |
| Text.PrintTextIsPlain | util/db_dump185.c:337-347 | The text is the bytes themselves exactly if all are printable and none is a backslash |
| Text.DigitIsItsPlace | util/db_load.c:1262-1300 | A digit counts as its place in the row of digits, every other character as 15, and exactly the codes from 103 to 127 are refused |
| Dumpers.Dumper.DbtDump | util/db_dump185.c:314-325 | Writes the hex text of the item and a newline |
| Dumpers.Dumper.DbtPrint | util/db_dump185.c:331-347 | Writes the escaped text of the item and a newline |
| Dumpers.Dumper.DbBtree | util/db_dump185.c:285-306 | Writes the header lines of an old btree |
| Dumpers.Dumper.DbHash | util/db_dump185.c:253-278 | Writes the header lines of an old hash table |
| Dumpers.Dumper.DumpRecords | util/db_dump185.c:231-240 | Writes key and data lines of all pairs in order, in either format |
| Loaders.Loader.Fgets | util/db_load.c:1379-1380 | Takes at most n - 1 characters of the input and nothing past a newline |
| Loaders.Loader.StorePair | util/db_load.c:1466-1485 | Room is made by doubling that saturates at 2^32 - 1, the byte is stored inside the buffer after the earlier ones, and DB_BUFFER_SMALL comes exactly from 2^32 - 11 bytes on |
| Loaders.Loader.ReadHex | util/db_load.c:1440-1492 | A line of hex digits is read as its bytes or as a first chunk of BLOB_LOADING_SIZE + 1 of them, and refused exactly if it is not streamed and has more than 2^32 - 11 bytes |
| Loaders.Loader.DbtRdump | util/db_load.c:1422-1493 | The same behind the leading space of versions 2 and 3, with an empty line, the characters DATA=END and a newline, the end of the input and anything else told apart |
| Loaders.Loader.StoreByte | util/db_load.c:1401-1412 | Room is made by doubling, which fails when it wraps at 2^31, and the byte is stored inside the buffer after the earlier ones |
| Loaders.Loader.ReadEscaped | util/db_load.c:1366-1414 | A line of complete escapes is read as the bytes it stands for, and refused exactly if an escape has a bad digit or the bytes outgrow 2^31 - 10 |
| Loaders.Loader.DbtRprint | util/db_load.c:1352-1416 | The same behind the leading space of versions 2 and 3, with an empty line, the characters DATA=END and a newline, the end of the input and anything else told apart |
| Load.Convprintable | util/db_load.c:1314-1346 | The bytes the string stands for, then a zero, in an allocation of strlen + 1 that is never outgrown; fails exactly on a bad digit |
| Load.WriteAtKeeps | util/db_load.c:722-733 | A write into an item changes the bytes it covers and no others |
| Load.ChunkIsAppended | util/db_load.c:722-733 | A chunk written at the current offset extends the item without gap or overlap |
| Load.StreamChunk | util/db_load.c:722-733 | One chunk of a line, of any length, is written behind what the record holds already, and there is more exactly if the line does not end in it |
| Load.PutData | util/db_load.c:663-745 | A streamed item ends up as its first chunk followed by the bytes of the whole rest of its line, the input stands behind the line, and the loop ends; an item that is not streamed is put as it is |
| Load.ReadItem | util/db_load.c:531-567 | The next item of a body is read completely, or its first chunk, or refused exactly if it outgrows its buffer; behind the last item the end of the data is found |
| Load.LoadRecords | util/db_load.c:531-638 | On the text of any items, in any of the two formats and with any streaming threshold, the pairs are put in order up to the end of the data, behind which the input then stands; fails exactly if some item does not fit; an odd last key is dropped |
| Load.PairUpInvertsInterleave | util/db_dump185.c:231-240 | Taking items two by two undoes the alternation of keys and data |
| Numbers.DecimalScans | src/common/db_getlong.c:32-47 | Decimal text at the end of a string or of a line scans as the number it was printed from, and the end test accepts it |
| Numbers.DecimalGetLong | src/common/db_getlong.c:20-146 | Numbers up to LONG_MAX are read back by __db_getlong and __db_getulong |
| Numbers.DecimalStartsHigh | src/common/db_getlong.c:32-33 | Decimal text starts with the digit of the number's highest place, and with 0 for the number 0 alone |
| Numbers.SignedNumberScans | src/common/db_getlong.c:32-33 | After any white space and a sign or none, all digits are taken up to the first other character |
| Numbers.GetLongExactly | src/common/db_getlong.c:20-146 | Such a number is accepted by __db_getlong exactly if it is 0 to LONG_MAX and the text or the line ends behind it, and by __db_getulong exactly if it is below 2^64, where a minus sign wraps |
| Numbers.NothingIsNoNumber | src/common/db_getlong.c:42-55 | Text without digits is refused, except that a newline at its start makes it 0 |
| Recno.CompactedExactly | util/db_load.c:1528-1544 | The conversion gives a text exactly if each of its characters stands behind a 3 and the end of the line or of the string follows |
| Recno.Compact | util/db_load.c:1528-1544 | On any line buffer the conversion in place keeps, from each pair up to the end of the text, the character after the 3, and ends the result with a zero; it fails exactly if some pair does not start with a 3 or is cut short; the write index never passes the read index |
| Recno.ParseRecno | util/db_load.c:1522-1548 | The number of a line as read by __db_getulong, after the conversion where the line is in hex, or a failure of either |
| Recno.RecnoIsRead | util/db_load.c:1522-1548 | A space and the text of any 32-bit record number, in hex or decimal, give the number |
| Recno.DbtRrecno | util/db_load.c:1500-1554 | Up to 31 characters of a line are read and told apart as the end of the input, the end of the data, a number cut to 32 bits or an error; a line with any 32-bit record number is taken whole and gives the number |
| HeaderTexts.SettingIsRead | util/db_load.c:1056-1194 | Each line that states a version, format, name, type, keys, number, byte order, flag, compression, pad or half of a heap's size sets exactly that, and is refused exactly if its number is above LONG_MAX, its version above 3 or its type unknown |
| HeaderTexts.RefusedExactly | util/db_load.c:1056-1230 | Which lines are refused and which end the header, for every line |
| HeaderTexts.PadIsLost | src/db/db_pr.c:2010-2018 | The text of any pad character sets the pad to the digit zero |
| HeaderTexts.HeaderIsRead | util/db_load.c:1009-1194 | Lines in any order and number each set what they say, and the header ends behind HEADER=END |
| HeaderTexts.StatedHeaderIsRead | src/db/db_pr.c:1857-2158 | The header of any description gives exactly the stated version, format, name, type, keys and calls, and both halves of a heap's size in one call, or is refused exactly if a stated number, version or type is out of range |
| Headers.LineKeepsAlike | util/db_load.c:1056-1194 | What a header line does depends on no version or name that was set before it |
| Headers.SavedIsNeverCut | util/db_load.c:1046-1047 | However often a saved header is read again and whatever it sets, the reading ends inside the saved copy |
| Headers.RereadIsTheSame | util/db_load.c:997-1060 | A second reading, from the saved copy, sets every field as the first did on as many lines if the lines before the last have no zero, and only then as long as no piece behind such a zero ends a header; it uses up the copy as well exactly if the last line has no zero either |
| Headers.RereadTakesAll | util/db_load.c:1046-1060 | If no piece before the last line ends the header, a second reading that succeeds has counted a line for each newline and each zero |
| Headers.ZeroInHeader | util/db_load.c:1046-1060 | A header with a zero that is accepted once and refused the second time |
| Headers.EarlyHeader | util/db_load.c:1046-1060 | A zero before the last line that goes unnoticed, because the piece behind it ends the second reading after as many lines |
| HeaderReaders.TakeLine | util/db_load.c:1056-1194 | One header line has the outcome that the format gives it, the name decoded by convprintable |
| HeaderReaders.HeaderReader.SaveLine | util/db_load.c:1014-1045 | The line is saved behind the earlier ones with a zero at its end; the doubling buffer has room for each character and for that zero |
| HeaderReaders.HeaderReader.TakeNext | util/db_load.c:1009-1060 | One turn of the loop takes the next line from the input or from the copy, counts it, and leaves the rest of the header as it was to be read |
| HeaderReaders.HeaderReader.Rheader | util/db_load.c:970-1242 | The header that lies ahead is read and saved, or the saved one is read again with the same line numbers and nothing taken from the input |
| WholeFiles.RunLines | util/db_load.c:1009-1060 | Lines without a zero that lie ahead are taken one by one, each from the outcome of those before |
| WholeFiles.LongIsRead | util/db_dump185.c:266-271 | A field printed as an unsigned long is read back exactly if it was not negative |
| WholeFiles.DumpedHeaderIsRead | util/db_dump185.c:253-306 | A dumped header is read as the format, type and settings that were dumped, in order, or refused exactly if a field was negative |
| RoundTrips.ReadHeader | util/db_load.c:337-358 | Whatever the number of retries, a header whose lines before the last have no zero gives the same fields, version and line number, and the input stays where the header ended |
| RoundTrips.KeyFlagExactly | util/db_load.c:369-432 | Header and command line are refused exactly if they contradict each other, if a heap has keys or if there is no type; otherwise there are keys exactly if the header says so, or for a btree or hash if the command line says nothing |
| RoundTrips.LoadInput | util/db_load.c:304-658 | Behind any accepted header, a body of any items is loaded exactly if each item fits, and the input then stands behind the line that ends the data; at the end of the input there is nothing to load |
| RoundTrips.LoadFile | util/db_load.c:304-658 | A whole dump is loaded, settings and pairs, exactly if its header fields are not negative and each item fits |
| RoundTrips.DumpThenLoad | util/db_dump185.c:181-247 | What is dumped and then loaded is the same list of pairs with the same type and settings, in both formats |
| RoundTrips.DecodeBoth | util/db_load.c:1314-1416 | The two decoders accept the same strings and give the same bytes |
| RoundTrips.NameRoundTrip | util/db_load.c:1072-1080 | A name in escaped text is read back up to its first zero, so completely exactly if it has none |
| WrittenFiles.WrittenIsRead | src/db/db_pr.c:1857-2182 | Where a database was written, with the line DATA=END behind its records, the loader finds its settings and its records |
| WrittenFiles.LoadNext | util/db_load.c:304-658 | The database that is next is loaded exactly if its settings are in range and its items fit, with the same pairs and settings, and the input then stands behind the line that ends its data |
| WrittenFiles.LoadAll | util/db_load.c:263-269 | All databases of a file are loaded in order, each with its pairs and settings, or exactly those before the first that does not fit |
| TunerSpec.OvflSizeValue | src/dbinc/btree.h:391-393 | The overflow threshold for two keys is a quarter of the page's space less 10, and the 16-bit cast loses nothing |
| TunerSpec.KeyDataSpaceValue | src/dbinc/db_page.h:852-855 | The space of an item is its size with 3 bytes of header, aligned to four, cut to 16 bits, and an index entry |
| TunerSpec.NeedIsAtMostHalf | util/db_tuner.c:810-866 | Whatever a pair's sizes, what it puts on a leaf page is at most half of the page's space |
| TunerSpec.RunIsMaximal | util/db_tuner.c:425-443 | The entries taken as one set are the maximal run of one key offset |
| TunerSpec.DupTest | util/db_tuner.c:419-419 | The test at the head of the scan tells a duplicate set from a single pair |
| TunerSpec.ScanEndsExactlyWhenScannable | util/db_tuner.c:413-490 | The scan of a leaf page ends if and only if no key and no single data item that it meets is deleted |
| TunerSpec.SetSpaceFits | util/db_tuner.c:425-443 | The space of a set on one page stays below 2^31, so onpd_sz never wraps |
| NextFit.PackKeeps | util/db_tuner.c:875-887 | For any non-empty stream the bytes on the pages are the bytes inserted, no page overflows, and any two neighbours hold more than one page's space |
| NextFit.AtMostTwiceOptimal | util/db_tuner.c:875-887 | The pages are at most twice those of any packing that keeps pairs whole, less one |
| TunerFacts.GroupIsChargedOnce | util/db_tuner.c:445-487 | Whichever way a set goes, its live data items are charged once each in order, and its key once, except when it stays on the page with its first item deleted |
| TunerFacts.GroupsPartitionThePage | util/db_tuner.c:413-443 | The groups of a page together hold all its data entries in page order |
| TunerFacts.LeafCharge | util/db_tuner.c:413-490 | On every page whose scan ends, and at every page size, each group's key is charged exactly once and its live data items exactly once in page order; not charged are a key whose set stays on the page with its first item deleted, and a pointer to an off-page set |
| TunerFacts.LeafIsChargedOnce | util/db_tuner.c:413-490 | On a page with no deleted item the scan ends and at every page size charges the key of each group exactly once, and each data item that is no pointer to an off-page set exactly once, where such pointers stand alone under their keys |
| TunerFacts.ChainCharge | util/db_tuner.c:701-723 | An off-page set charges the live items of its first page once for each page of its chain, and no key |
| TunerFacts.ChainIsExactWhenItRepeats | util/db_tuner.c:701-723 | So the set is charged as it is if and only if the rest of the chain repeats the first page, in particular if there is one page |
| TunerFacts.SecondPageIsMissed | util/db_tuner.c:701-723 | On a chain of two different pages the first item is charged twice and the second never |
| TunerFacts.SpaceIsExactBelowTheCast | src/dbinc/db_page.h:852-855 | The space computed for an item covers the item with its header and index entry, and so exceeds its size, exactly below 65530 bytes |
| TunerFacts.SetSpaceIsFull | util/db_tuner.c:425-443 | The space computed for an on-page set is its true space exactly if its key and live items are all below 65530 bytes, and then it goes off the page exactly if its true space is a quarter of the page or more |
| TunerFacts.ChainSpaceIsFull | util/db_tuner.c:1049-1113 | The same for an off-page set, whose true space must also be below 2^32 |
| TunerFacts.CastKeepsLargeSet | util/db_tuner.c:523-528 | A set larger than any page that stays on the page at all eight sizes because of the cast |
| TunerFacts.SpilledIsCharged | util/db_tuner.c:945-969 | The simulated overflow pages are exactly those of the items charged, by whatever route they came |
| TunerFacts.TraversalShrinks | util/db_tuner.c:523-546 | Over any traversal the charged overflow pages at a larger size are at most those at a smaller one, even though sets may change between on-page and off-page |
| TunerFacts.OverflowNeverIncreases | util/db_tuner.c:1276-1279 | So the overflow count never increases with the page size and the unsigned difference never wraps |
| TunerPacking.LeafIsPacked | util/db_tuner.c:868-887 | The simulated leaf pages of any run are the next-fit packing of its insertions |
| TunerPacking.LeafPagesAreNearlyOptimal | util/db_tuner.c:315-327 | After a traversal and its last flush the leaf pages hold exactly the inserted bytes, all but the last are more than half full, and they are at most twice any packing's pages, less one |
| TunerBytes.ThresholdIsExact | src/dbinc/btree.h:391-393 | The longest item on a page is a quarter, less 10, of what is behind a header of 26 bytes, 32 with checksums and 64 with encryption |
| TunerBytes.SizeIsBytes | util/db_tuner.c:1127-1137 | The size of an item is its own length, or the total length of what it refers to |
| TunerBytes.NeedsAreBytes | util/db_tuner.c:810-866 | A key or data item takes its aligned bytes and an index entry, 14 bytes if it is too long or a pointer, an index entry alone, or nothing |
| TunerBytes.PairTakes | util/db_tuner.c:810-866 | A pair takes what its two parts take |
| TunerBytes.GroupTakes | util/db_tuner.c:465-487 | The leaf insertions of a group, item by item: a pair, a key alone in front of a pointer, a key with a pointer for a set off the page, or the live items of a set that stays |
| TunerBytes.ChainTakes | util/db_tuner.c:665-723 | The leaf insertions of a chain: one pointer of 14 bytes if it stays off the pages, or else the live items of its first page once for each of its pages, with an index entry each |
| TunerBytes.GroupBytes | util/db_tuner.c:571-624 | The leaf bytes of a group add up: key and item of a pair, the key alone in front of a pointer, the key and 14 for a set off the page, and for a set that stays its live items, an index entry for each but the first, and the key if the first is live |
| TunerBytes.StayingSetTakesItsSpace | util/db_tuner.c:418-443 | A set that stays on the page with its first item live and all items at or below the threshold takes its space and 2 bytes for each further live item |
| TunerBytes.PointerIsCountedOnce | util/db_tuner.c:682-690 | The key of an off-page set that stays off the leaf pages and its pointer of 14 bytes are counted once |
| TunerBytes.LeafPagesHoldTheRecords | util/db_tuner.c:390-493 | Over any traversal the simulated leaf pages are the next-fit packing of these lengths |
| TunerBytes.SetPagesHoldTheItems | util/db_tuner.c:907-939 | The duplicate pages of a set are the next-fit packing of its items' lengths |
| TunerBytes.OverflowPagesHoldTheLongItems | util/db_tuner.c:953-966 | Over any traversal the overflow pages are those of the keys and data items above the threshold, s / (pgsize - 26) + 1 for s bytes |
| TunerBytes.StorageHoldsEverything | util/db_tuner.c:1159-1172 | The pages counted at a size are the leaf, duplicate and overflow pages, each once, and have room behind their headers for every byte that was inserted |
| TunerBytes.LongPagesInBuckets | util/db_tuner.c:953-966 | Of the pages of a long item all but one are in bucket 10, and the last in the bucket of what it holds |
| TunerDups.SetIsPackedAlone | util/db_tuner.c:555-626 | A set that goes off a leaf page has its live items packed onto pages of its own, behind the pointer that its key gets |
| TunerDups.ChainIsPackedAlone | util/db_tuner.c:665-731 | A set that stays off the leaf pages has the live items of its first page, once for each of its pages, packed onto pages of its own |
| TunerDups.SetPagesAreNearlyOptimal | util/db_tuner.c:922-939 | The duplicate pages of a set hold exactly its bytes, all but the last are more than three quarters full, and they are at most twice those of any packing of its items, less one |
| TunerDups.DupPagesAreOfTheSets | util/db_tuner.c:509-548 | The duplicate pages of a whole traversal are those of its off-page sets, in order, each set packed by itself |
| TunerDups.DupPagesAreNearlyOptimal | util/db_tuner.c:322-326 | They hold exactly the bytes of these sets, and are at most twice as many, less one for each set, as any packings that keep the sets apart need |
| TunerPacking.BucketIsSharp | util/db_tuner.c:982-990 | The bucket of a page is the whole number of tenths that are filled; a page that does not overflow has one, bucket 10 exactly when it is full |
| TunerPacking.BucketsCountAllPages | util/db_tuner.c:1163-1167 | The buckets of a size together count each page once |
| TunerPacking.AtMostOneSparseLeaf | util/db_tuner.c:982-990 | Of all leaf pages of a traversal at most one falls below fill factor 0.5 |
| TunerPacking.SpillShares | util/db_tuner.c:953-966 | An overflow item of s bytes adds exactly s / usable + 1 pages, its remainder page never in bucket 10 |
| TunerPacking.BucketsCountAllSpills | util/db_tuner.c:1163-1165 | The overflow buckets together count the pages of all spilled items |
| TunerDups.NoOpenDupPage | util/db_tuner.c:322-326 | The last flush never finds an open duplicate page |
| TunerRuns.Choose | util/db_tuner.c:1269-1279 | Without overflow at 512 the smallest size with the least non-zero storage, or else the largest size whose drop exceeds two percent of its pages, or 512 |
| TunerRuns.RecordsTakePages | util/db_tuner.c:1169-1171 | With nothing deleted, storage is zero at every size or at none |
| TunerRuns.LeastSpaceExactly | util/db_tuner.c:1269-1275 | The size chosen by storage has the least storage of all eight exactly if its storage is zero or no size has zero storage, and in the latter case is the smallest such |
| TunerRuns.LeastSpaceOfAll | util/db_tuner.c:1269-1275 | With nothing deleted the chosen size has the least storage of all eight and is the smallest such |
| Tuners.Tuner.RecordOvflPg | util/db_tuner.c:945-969 | The item joins the spilled ones, its pages are counted in their buckets, and no bucket is out of range |
| Tuners.Tuner.RecordLeafPg | util/db_tuner.c:972-994 | The current leaf page joins the closed ones and is counted in its bucket, which is never out of range |
| Tuners.Tuner.RecordDupPg | util/db_tuner.c:997-1019 | The same for the current duplicate page |
| Tuners.Tuner.RecordLastOpd | util/db_tuner.c:1025-1038 | The set's last page is closed, if there is one, and the next set starts afresh |
| Tuners.Tuner.InsertKvpair | util/db_tuner.c:794-888 | The pair takes its space on the current or a new leaf page and spills what is too large; an insertion without space changes nothing |
| Tuners.Tuner.InsertDupdata | util/db_tuner.c:891-942 | The item takes its space on the current or a new duplicate page; EXIT_INSERT_ZERO_NEED never comes |
| Tuners.Tuner.LeafDupdataEntries | util/db_tuner.c:555-626 | The set's items are inserted in order, the key with the first or with a pointer |
| Tuners.Tuner.LeafDupdata | util/db_tuner.c:509-548 | At each of the eight sizes the set goes off the page exactly if its space is a quarter of the page or more |
| Tuners.Tuner.SumDupSet | util/db_tuner.c:418-443 | Where the set ends, and the space of its key and live data items, which the 32-bit sum holds |
| Tuners.Tuner.LeafPage | util/db_tuner.c:390-493 | The whole page is inserted at all eight sizes, and EXIT_INSERT_ZERO_ONPGDUP never comes |
| Tuners.Tuner.OpdData | util/db_tuner.c:665-731 | An off-page set is inserted at one size, its first page once for each page of the chain |
| Tuners.Tuner.OpdDataEntries | util/db_tuner.c:738-788 | The live items of one page are inserted in order |
| Tuners.Tuner.OpdPage | util/db_tuner.c:629-662 | At each of the eight sizes the set goes off the page exactly if the space of the whole chain, cut to 32 bits, is a quarter of the page or more |
| Tuners.Tuner.GetOpdSize | util/db_tuner.c:1049-1092 | The space of the live items of all pages of the chain, cut to 32 bits |
| Tuners.Tuner.SumOpdPageDataEntries | util/db_tuner.c:1096-1113 | The space of the live items of one page, cut to 32 bits |
| Tuners.Tuner.Callback | util/db_tuner.c:343-379 | Leaf pages and first pages of off-page sets are inserted, other known pages are passed over, unknown ones fail |
| Tuners.Tuner.Generate | util/db_tuner.c:285-336 | After a traversal the statistics are those of the simulated databases with their last pages flushed; it fails exactly on a page of unknown type |
| Tuners.Tuner.Totals | util/db_tuner.c:1159-1172 | The totals are the numbers of overflow, leaf and duplicate pages of the simulated databases, and their storage |
| Tuners.AnalyzeBtree | util/db_tuner.c:261-279 | Zero overflow at 512 implies zero overflow at every size and a choice of least storage; otherwise the choice is the largest size that saves more than two percent, or 512 |

## Left out

- Option parsing, environments, opening databases, cursors, transactions, locks, signals and printed messages: calls into code that is not among these files.
- The other utilities and the DB_MULTIPLE copies under build_windows: the same macros once more, or plumbing.
- `__bam_traverse`: the sequence of pages it hands to the callback is a parameter of the tuner model, and of a page only what the callback reads is modelled.
- Loaders.Loader.DbtRdump: lines that are not complete pairs of hex digits are read without a claim about the bytes; so are unfinished escapes in Loaders.Loader.DbtRprint.
- Load.Convprintable: only strings with complete escapes, since the C code reads past the end of an unfinished one.
- HeaderReaders.TakeLine: a line with `nparts`, a name with an unfinished escape, and a version that no int holds have the outcome Outside, which stands for what the model does not follow.
- HeaderReaders.HeaderReader.Rheader: a line with `nparts`, a name with an unfinished escape, and a version that no int holds end the model's reading with an error, because the first reads partition keys from the input and the others have no defined meaning in C.
- RoundTrips.LoadInput: btree and hash databases without command-line settings only; the loops for databases without keys, for heaps and for record numbers as keys are not modelled beyond Recno.DbtRrecno.
- RoundTrips.LoadFile: as RoundTrips.LoadInput, which it calls.
- WrittenFiles.LoadAll: databases of versions 2 and 3 whose items and names stay on their lines; one of version 1, which has no line that ends its data, is RoundTrips.LoadFile.
- Load.LoadRecords: DB_KEYEXIST, deadlock retries and interrupts, which depend on the outcome of foreign calls; a put always succeeds here.
- The calls that a header makes on the database handle are recorded, with their arguments cut to their types; that they may fail is not modelled.
- Allocation failures, except the reallocation to zero bytes after a length has wrapped, which counts as one.
- Alignment of ulen in bulk buffers, and overlap between an item's source and the buffer.
- Wrap-around of the tuner's 64-bit page counters and storage totals.
- Tuners.Tuner.LeafPage: requires a page whose scan ends; for the others the C loop does not end, as TunerSpec.ScanEndsExactlyWhenScannable says.
- Floating point: a bucket is the integer part of an exact quotient, and the factor 0.02 is the exact comparison 50 * drop > pages.
- The verbose tables of the tuner.
