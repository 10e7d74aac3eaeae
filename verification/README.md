# Verification of a teaching kernel and its shell

This project models two programs and proves properties of the models: the Pintos kernel (threads,
synchronization, memory, virtual memory, file system and its C library) and a small shell (its
parser and the wiring of pipelines).  Each module is a component of the system:

- **Arithmetic**: 64-bit division from the 32-bit DIVL instruction.
- **MergeSort**, **Lists**: the doubly linked list and its natural merge sort; the first is the
  specification on sequences, the second the linked structure.
- **Bits**, **Hash**: the chained hash table that resizes itself.
- **Bitmap**, **Palloc**, **Malloc**: bits in words, pages on bits, blocks on pages.
- **HeapSort**: heap sort and binary search on arrays of bytes.
- **Printf**, **Ustar**: integer formatting, and archive headers that go through it.
- **PageTable**, **Loader**: the two-level page table, and executables loaded through it.
- **Inode**, **Directory**, **FileSys**, **Volume**: files as bytes on sectors; directories as slots in a
  file; who owns which sector, in memory and in the free map's file, over every operation; and the three
  together, the bytes of the device representing the inodes and the directory, also when it is mounted
  again.
- **Scheduler**, **Runs**, **Threads**, **Monitor**: the kernel's steps and their invariant; what holds
  over every run; the operations that change the kernel's variables in place; locks and condition
  variables on top.
- **Tokens**, **Grammar**, **Parser**, **Pipeline**: the shell; the language it accepts stands in **Grammar**.

`dafny verify dfyconfig.toml` checks everything.

## How the source is read

- Machine integers are unbounded unless their width matters; where it does (division, sizes passed to
  malloc, ELF headers, wakeup times, ustar fields) wrap-around is written out.
- Missing memory is a parameter of the operations, also where it makes a read of the directory or a
  write of a slot or of the free map stop short, so that what is proved holds whatever fails.  Where the
  source panics, while formatting and mounting, the model goes on only if nothing fails.
- `bytes_to_sectors` adds in signed 32-bit arithmetic; the overflow for sizes above 2^31 - 512 is taken
  to wrap around.
- A kernel step is what one thread does with interrupts off, up to the end of a thread switch.  The
  append to the list of all threads in `init_thread`, which the source makes with interrupts on, is one
  atomic step.  A thread that comes back from `thread_block` inside `sema_down` still has interrupts
  off, so its next look at the value comes before anything else.
- The ready list's invariant exempts the idle thread, whose status `thread_yield` sets without queueing
  it.
- A step that gives up the processor is guarded by there being a thread to switch to.  Only the stretch
  before the idle thread is known relies on this guard: afterwards it holds in every state
  (`Runs.SomeThreadRuns`), and the start-up meets it however timer interrupts fall
  (`Runs.StartUpFromBoot`).
- `orl`, `andl` and `xorl` in the bitmap are the C expressions of their comments; `divl` is exact
  division that must not overflow.
- An allocated page or block has an address that was not in use; kernel virtual and physical addresses
  are identified.
- Calls into the file system and into one malloc descriptor do not overlap, as their locking rules ask.

Where the comments of the source and its code disagree, the code is modelled: `bitmap_scan_and_flip`
with a count of zero returns its start, not 0; `arena_to_block` returns block number IDX, not IDX - 1;
descriptors end at 1 kB, not 2 kB; a short read can also come from a bounce buffer that could not be
allocated, which the comment in `dir_add` rules out.

Properties that are false of the code are stated with the exact condition under which they hold:

- `sdiv64`: all inputs but -2^63 / -1.  `umod64` and `smod64`: the divisors whose remainders fit 32 bits.
- `malloc`: sizes below 2^32 - 11.
- `format_integer`: the output is as wide as asked, unless `-` and `0` are both set, as a negative width passed
  for `*` can bring about, and there is something to pad.
- `ustar_make_header`: all but regular files of negative size parse back.
- `timer_sleep`: deadlines below 2^63.
- `dir_add`: no short read makes it miss the name or write over an entry in use.
- `filesys_create`: it loses sectors exactly when it makes an inode (the root directory opens, the two
  allocations are written, there is memory for the inode, and first fit finds room) and either `dir_add`
  does not write the entry and the file has data, or `dir_add` writes over the entry of an inode that is
  not open.
- The free map in its file is the one in memory after a complete write; after a write that stopped short
  it is the new map up to there and the old one behind.  Every sector in use is marked in memory and in
  the file at all times.
- The wiring of pipelines: standard input and standard output open in the shell.
- `parse` on a redirection without a file name: the answer depends on what the buffer held before.

## Model

| member | source | states |
|---|---|---|
| `Arithmetic.Nlz` | OS-lab2-master/pintos/src/lib/arithmetic.c:41-73 | The number of leading zeros: the shift that brings the highest 1 bit of a nonzero word to position 31. |
| `Arithmetic.TruncatedDivisor` | OS-lab2-master/pintos/src/lib/arithmetic.c:121-124 | The divisor with its low bits dropped lies below the true one by less than one unit of the last bit kept. |
| `Arithmetic.EstimateBound` | OS-lab2-master/pintos/src/lib/arithmetic.c:113-126 | Dividing by the truncated divisor gives the true quotient or one more: the error bound that the large-divisor branch rests on. |
| `Arithmetic.LargeDivisor` | OS-lab2-master/pintos/src/lib/arithmetic.c:113-126 | For a divisor of more than 32 bits halving, one DIVL, a shift and one correction give the floor quotient, and DIVL does not trap. |
| `Arithmetic.Udiv64` | OS-lab2-master/pintos/src/lib/arithmetic.c:77-127 | For every 64-bit dividend and nonzero divisor the result is the floor quotient and no DIVL overflows. |
| `Arithmetic.TruncDivMeaning` | OS-lab2-master/pintos/src/lib/arithmetic.c:139-146 | The truncated quotient is the only one whose remainder is smaller than the divisor and has the dividend's sign (section 6.5.5 of ISO C99). |
| `Arithmetic.Sdiv64` | OS-lab2-master/pintos/src/lib/arithmetic.c:139-146 | The truncated quotient exactly for every input but -2^63 / -1. |
| `Arithmetic.Umod64` | OS-lab2-master/pintos/src/lib/arithmetic.c:131-135 | The remainder cut to 32 bits, through the floor quotient. |
| `Arithmetic.Umod64Exact` | OS-lab2-master/pintos/src/lib/arithmetic.c:131-135 | The 32-bit return type keeps every remainder of a divisor if and only if the divisor is at most 2^32. |
| `Arithmetic.SmodWrap` | OS-lab2-master/pintos/src/lib/arithmetic.c:150-154 | The wrapped result is the true signed remainder modulo 2^32, also for -2^63 / -1. |
| `Arithmetic.Smod64` | OS-lab2-master/pintos/src/lib/arithmetic.c:150-154 | The signed remainder cut to 32 bits, through every wrap of the 64-bit product and difference. |
| `Arithmetic.Smod64Exact` | OS-lab2-master/pintos/src/lib/arithmetic.c:150-154 | The signed remainder survives for every dividend if and only if the divisor's magnitude is at most 2^31. |
| `Lists.List.constructor` | OS-lab2-master/pintos/src/lib/kernel/list.c:60-68 | An empty list is a well-formed chain from head to tail. |
| `Lists.List.Insert` | OS-lab2-master/pintos/src/lib/kernel/list.c:168-178 | The element is linked in before the given position; prev and next stay inverse and the rest of the chain keeps its order. |
| `Lists.List.Remove` | OS-lab2-master/pintos/src/lib/kernel/list.c:248-255 | The element leaves the chain, the one that followed it is returned, and the rest keeps its order. |
| `Lists.List.Splice` | OS-lab2-master/pintos/src/lib/kernel/list.c:183-204 | A stretch of the chain, possibly empty, moves in front of an earlier or a later element and nothing else changes. |
| `Lists.List.SpliceFrom` | OS-lab2-master/pintos/src/lib/kernel/list.c:183-204 | A stretch leaves another list and stands in front of the element; both lists stay well formed and no element is lost or shared. |
| `Lists.List.Reverse` | OS-lab2-master/pintos/src/lib/kernel/list.c:325-337 | Walking along links that are being swapped reverses the interior and re-attaches the sentinels. |
| `Lists.List.FindEndOfRun` | OS-lab2-master/pintos/src/lib/kernel/list.c:357-372 | The end of the maximal nondecreasing run that starts at a and stays before b, by walking the links. |
| `Lists.List.InplaceMerge` | OS-lab2-master/pintos/src/lib/kernel/list.c:379-399 | Moving links one by one turns two adjacent runs into their merge; the rest of the chain is untouched. |
| `Lists.List.SortPass` | OS-lab2-master/pintos/src/lib/kernel/list.c:404-440 | One pass over the links is one pass of the specification, and the returned count is its number of output runs. |
| `Lists.List.Sort` | OS-lab2-master/pintos/src/lib/kernel/list.c:404-440 | For every strict weak order the list ends well formed, sorted, and a stable permutation of what it held; the loop terminates because the number of runs goes down. |
| `Lists.List.InsertInOrder` | OS-lab2-master/pintos/src/lib/kernel/list.c:445-459 | The element is linked in behind its ties. |
| `Lists.List.RemoveDuplicates` | OS-lab2-master/pintos/src/lib/kernel/list.c:465-486 | Of tied neighbours the first stays, and the others are moved in order to the end of the second list. |
| `MergeSort.MergeSorted` | OS-lab2-master/pintos/src/lib/kernel/list.c:379-399 | Merging two sorted runs gives a sorted run. |
| `MergeSort.MergeStable` | OS-lab2-master/pintos/src/lib/kernel/list.c:379-399 | Merging keeps the order of tied elements. |
| `MergeSort.PassCount` | OS-lab2-master/pintos/src/lib/kernel/list.c:404-440 | A pass over r runs outputs exactly ceil(r / 2) of them. |
| `MergeSort.PassRuns` | OS-lab2-master/pintos/src/lib/kernel/list.c:404-440 | What a pass produces has no more runs than it counted. |
| `MergeSort.PassProgress` | OS-lab2-master/pintos/src/lib/kernel/list.c:404-440 | A pass that counted more than one run has reduced the number of runs; otherwise the list is sorted. |
| `MergeSort.PassStablePermutation` | OS-lab2-master/pintos/src/lib/kernel/list.c:404-440 | A pass is a stable permutation. |
| `MergeSort.StableSortUnique` | OS-lab2-master/pintos/src/lib/kernel/list.c:404-440 | Two sorted stable permutations of one sequence are equal, so the specification of the sort has one solution. |
| `MergeSort.InsertOrdered` | OS-lab2-master/pintos/src/lib/kernel/list.c:445-459 | Ordered insertion into a sorted list gives what stably sorting the list with the element appended gives. |
| `MergeSort.UniqueMeaning` | OS-lab2-master/pintos/src/lib/kernel/list.c:465-486 | Removing duplicates loses nothing, and no two neighbours that remain are tied. |
| `MergeSort.UniqueSorted` | OS-lab2-master/pintos/src/lib/kernel/list.c:465-486 | On a sorted list exactly the first element of every class of ties remains. |
| `Bits.TurnOffKeepsTop` | OS-lab2-master/pintos/src/lib/kernel/hash.c:329-333 | x & (x - 1) keeps the highest 1 bit unless it is the only one. |
| `Bits.PowerOf2Meaning` | OS-lab2-master/pintos/src/lib/kernel/hash.c:336-340 | The bit test decides being a power of two. |
| `Bits.AndMask` | OS-lab2-master/pintos/src/lib/kernel/hash.c:305-310 | Masking with 2^k - 1 is the remainder modulo 2^k, so the bucket index is in range. |
| `Hash.TargetBuckets` | OS-lab2-master/pintos/src/lib/kernel/hash.c:368-372 | The bit-clearing loop ends with the largest power of two up to max(4, elements / 2). |
| `Hash.IdealLoad` | OS-lab2-master/pintos/src/lib/kernel/hash.c:344-372 | Four buckets for up to seven elements; from then on the ideal number leaves at least two and less than four elements for each bucket. |
| `Hash.SameBucket` | OS-lab2-master/pintos/src/lib/kernel/hash.c:305-326 | Equal elements can only be in the bucket that the hash selects. |
| `Hash.HashTable.constructor` | OS-lab2-master/pintos/src/lib/kernel/hash.c:24-42 | A new table is empty, with four buckets. |
| `Hash.HashTable.FindElem` | OS-lab2-master/pintos/src/lib/kernel/hash.c:314-326 | An equal element of the bucket is returned exactly when there is one. |
| `Hash.HashTable.Find` | OS-lab2-master/pintos/src/lib/kernel/hash.c:131-135 | An equal element of the table is found exactly when there is one. |
| `Hash.HashTable.InsertElem` | OS-lab2-master/pintos/src/lib/kernel/hash.c:416-421 | The element is added to its bucket and counted. |
| `Hash.HashTable.RemoveElem` | OS-lab2-master/pintos/src/lib/kernel/hash.c:424-429 | The element leaves its bucket and the count. |
| `Hash.HashTable.Insert` | OS-lab2-master/pintos/src/lib/kernel/hash.c:98-110 | A set insertion modulo equality: the element is added exactly when no equal one is there, through any rehash. |
| `Hash.HashTable.Replace` | OS-lab2-master/pintos/src/lib/kernel/hash.c:114-127 | Afterwards the new element is in the table and the equal one it returns is not. |
| `Hash.HashTable.Delete` | OS-lab2-master/pintos/src/lib/kernel/hash.c:144-154 | The equal element, if any, leaves the table and is returned; otherwise nothing changes. |
| `Hash.HashTable.Rehash` | OS-lab2-master/pintos/src/lib/kernel/hash.c:351-413 | The elements are conserved, each lands in the bucket its hash selects, and the number of buckets is the ideal one unless the allocation fails, when nothing changes. |
| `Hash.HashTable.MoveBucket` | OS-lab2-master/pintos/src/lib/kernel/hash.c:394-410 | Moving one old bucket adds exactly its elements to the new buckets. |
| `Hash.HashIterator.constructor` | OS-lab2-master/pintos/src/lib/kernel/hash.c:199-208 | The iterator starts before the first element. |
| `Hash.HashIterator.Next` | OS-lab2-master/pintos/src/lib/kernel/hash.c:218-235 | The next element in bucket order, or none exactly at the end. |
| `Hash.HashTable.Traverse` | OS-lab2-master/pintos/src/lib/kernel/hash.c:182-235 | The iteration idiom meets every element exactly once. |
| `Bitmap.BitChanges` | OS-lab2-master/pintos/src/lib/kernel/bitmap.c:35-47 | Changing one bit of a word changes that bit of the map and no other. |
| `Bitmap.MarkBit` | OS-lab2-master/pintos/src/lib/kernel/bitmap.c:156-166 | OR with the mask turns on one bit of the word and leaves the others. |
| `Bitmap.ResetBit` | OS-lab2-master/pintos/src/lib/kernel/bitmap.c:169-179 | AND with the complement turns off one bit and leaves the others. |
| `Bitmap.FlipBit` | OS-lab2-master/pintos/src/lib/kernel/bitmap.c:184-194 | XOR with the mask toggles one bit and leaves the others. |
| `Bitmap.Map.constructor` | OS-lab2-master/pintos/src/lib/kernel/bitmap.c:78-94 | A new map has all bits clear. |
| `Bitmap.Map.Set` | OS-lab2-master/pintos/src/lib/kernel/bitmap.c:144-153 | One bit gets the value. |
| `Bitmap.Map.Mark` | OS-lab2-master/pintos/src/lib/kernel/bitmap.c:156-166 | The word operation sets one bit of the map. |
| `Bitmap.Map.Reset` | OS-lab2-master/pintos/src/lib/kernel/bitmap.c:169-179 | The word operation clears one bit of the map. |
| `Bitmap.Map.Flip` | OS-lab2-master/pintos/src/lib/kernel/bitmap.c:184-194 | The word operation toggles one bit of the map. |
| `Bitmap.Map.Test` | OS-lab2-master/pintos/src/lib/kernel/bitmap.c:197-203 | The word operation reads one bit of the map. |
| `Bitmap.Map.SetMultiple` | OS-lab2-master/pintos/src/lib/kernel/bitmap.c:217-228 | Exactly the given range of bits gets the value. |
| `Bitmap.Map.Contains` | OS-lab2-master/pintos/src/lib/kernel/bitmap.c:250-263 | True exactly when some bit of the range has the value. |
| `Bitmap.Map.Scan` | OS-lab2-master/pintos/src/lib/kernel/bitmap.c:295-310 | The first group of that many bits at or after the start, or none exactly when there is none. |
| `Bitmap.Map.ScanAndFlip` | OS-lab2-master/pintos/src/lib/kernel/bitmap.c:319-326 | The first group is found and flipped, or nothing changes. |
| `Bitmap.WordsWritten` | OS-lab2-master/pintos/src/lib/kernel/bitmap.c:355-360 | A write of the map that stops at a word boundary leaves the new words up to there and the old ones behind. |
| `Bitmap.BitsWritten` | OS-lab2-master/pintos/src/lib/kernel/bitmap.c:355-360 | So the map in the file is the new one up to a bit and the old one from there on. |
| `Bitmap.LastMasked` | OS-lab2-master/pintos/src/lib/kernel/bitmap.c:66-70 | Clearing the unused bits of the last word leaves the map as it is. |
| `Bitmap.FileBit` | OS-lab2-master/pintos/src/lib/kernel/bitmap.c:35-47 | In the bytes of a file, bit i of the map is bit i % 8 of byte i / 8. |
| `Bitmap.Map.Load` | OS-lab2-master/pintos/src/lib/kernel/bitmap.c:340-351 | The map becomes the one whose words the bytes of the file are. |
| `HeapSort.DoSwap` | OS-lab2-master/pintos/src/lib/stdlib.c:66-79 | Swapping byte by byte exchanges two elements of any size and leaves every other byte. |
| `HeapSort.DoCompare` | OS-lab2-master/pintos/src/lib/stdlib.c:85-91 | The comparison of two elements of the byte array. |
| `HeapSort.SiftDownHeap` | OS-lab2-master/pintos/src/lib/stdlib.c:96-123 | Floating an element down restores the heap below it. |
| `HeapSort.SiftDownPermutes` | OS-lab2-master/pintos/src/lib/stdlib.c:96-123 | Floating down permutes the first elements and leaves the others alone. |
| `HeapSort.RootIsLargest` | OS-lab2-master/pintos/src/lib/stdlib.c:131-152 | The root of a heap is at least every element. |
| `HeapSort.BuildHeapCorrect` | OS-lab2-master/pintos/src/lib/stdlib.c:131-152 | The first loop of the sort makes a heap of any array. |
| `HeapSort.UnloadStep` | OS-lab2-master/pintos/src/lib/stdlib.c:131-152 | Moving the root behind the heap and floating down keeps heap, order and elements. |
| `HeapSort.SortCorrect` | OS-lab2-master/pintos/src/lib/stdlib.c:131-152 | For any total preorder the result is in order and has the same elements. |
| `HeapSort.SortPermutes` | OS-lab2-master/pintos/src/lib/stdlib.c:131-152 | Whatever the comparison says, sorting loses and makes up nothing. |
| `HeapSort.Heapify` | OS-lab2-master/pintos/src/lib/stdlib.c:96-123 | On the byte array the loop does what the specification's float-down does. |
| `HeapSort.SortArray` | OS-lab2-master/pintos/src/lib/stdlib.c:131-152 | In place and for any element size the byte array ends with the same elements, whatever the comparison says, and in order for a total preorder. |
| `HeapSort.BinarySearch` | OS-lab2-master/pintos/src/lib/stdlib.c:184-207 | Over an ordered array a match is returned exactly when one exists, with the pointers kept on element boundaries. |
| `HeapSort.SortedSearch` | OS-lab2-master/pintos/src/lib/stdlib.c:131-207 | Searching the sorted array decides membership in the original one. |
| `Printf.FormattedReadsBack` | OS-lab2-master/pintos/src/lib/stdio.c:469-547 | Whatever the flags, width and precision, the digits output read back as the magnitude, and the field is filled. |
| `Printf.FormattedShape` | OS-lab2-master/pintos/src/lib/stdio.c:469-547 | For every conversion the output is: the sign that the flags ask for, the prefix, zeros up to the precision and the numeral, with blanks in front, or behind with the - flag, or zeros inside with the 0 flag; its length is the larger of the width and what the number needs, if and only if - and 0 are not both given or there is nothing to pad. |
| `Printf.DigitsAreNumeral` | OS-lab2-master/pintos/src/lib/stdio.c:501-513 | The digits are the one numeral of the value in the base: no leading zero, and a comma exactly behind every three digits from the right (four in hexadecimal) that more digits precede. |
| `Printf.SignReadsBack` | OS-lab2-master/pintos/src/lib/stdio.c:469-547 | A minus sign is output exactly for a negative value of a signed conversion, so that the signed value reads back. |
| `Printf.OctalShape` | OS-lab2-master/pintos/src/lib/stdio.c:469-547 | A value below 8^width printed zero-padded is exactly width octal digits and reads back. |
| `Printf.OctalUnique` | OS-lab2-master/pintos/src/lib/stdio.c:469-547 | There is one way to write a number in octal with a given number of digits. |
| `Printf.DigitsFit` | OS-lab2-master/pintos/src/lib/stdio.c:469-547 | The digits of a 64-bit value fit the buffer. |
| `Printf.AccumulateDigits` | OS-lab2-master/pintos/src/lib/stdio.c:501-513 | The loop stores the digits least significant first, with the grouping commas. |
| `Printf.FillBuffer` | OS-lab2-master/pintos/src/lib/stdio.c:501-524 | Digits, zeros up to the precision and the octal prefix, all within the 64 characters. |
| `Printf.FormatInteger` | OS-lab2-master/pintos/src/lib/stdio.c:469-547 | The characters sent to the output are the formatted number. |
| `Printf.Writer.Output` | OS-lab2-master/pintos/src/lib/stdio.c:45-52 | A character is stored while there is room, and always counted. |
| `Printf.Writer.OutputDup` | OS-lab2-master/pintos/src/lib/stdio.c:550-555 | The character is output that many times. |
| `Printf.Writer.Terminate` | OS-lab2-master/pintos/src/lib/stdio.c:25-42 | The buffer holds a null-terminated prefix of what was output. |
| `Ustar.StripSociable` | OS-lab2-master/pintos/src/lib/ustar.c:65-73 | Stripping yields a name with no leading slash or dot-dot part, and leaves exactly such names alone. |
| `Ustar.StripTakesPieces` | OS-lab2-master/pintos/src/lib/ustar.c:65-73 | If a name is a series of the pieces /, ./ and ../ followed by a rest that begins with none of them, the stripped name is that rest, or . when the rest is empty or dot-dot. |
| `Ustar.SplitExists` | OS-lab2-master/pintos/src/lib/ustar.c:65-73 | Every name is such a series followed by such a rest. |
| `Ustar.SplitUnique` | OS-lab2-master/pintos/src/lib/ustar.c:65-73 | It is so in one way only. |
| `Ustar.StripAntisocialPrefixes` | OS-lab2-master/pintos/src/lib/ustar.c:65-73 | The pointer loop computes the stripped name. |
| `Ustar.ParseOctalMeaning` | OS-lab2-master/pintos/src/lib/ustar.c:129-162 | Octal digits followed by a terminator parse to their value exactly when it fits. |
| `Ustar.ParseOctalRefuses` | OS-lab2-master/pintos/src/lib/ustar.c:129-162 | Fields of any other shape are refused. |
| `Ustar.ParseOctalField` | OS-lab2-master/pintos/src/lib/ustar.c:129-162 | The loop computes the value or the refusal that the field means. |
| `Ustar.CalculateChksum` | OS-lab2-master/pintos/src/lib/ustar.c:36-54 | The loop sums the bytes, with the checksum field read as spaces. |
| `Ustar.ChksumMeaning` | OS-lab2-master/pintos/src/lib/ustar.c:36-54 | The checksum is the plain sum of the 512 bytes with eight blanks in the place of the checksum. |
| `Ustar.ChksumIgnoresItself` | OS-lab2-master/pintos/src/lib/ustar.c:36-54 | Filling in the checksum does not change it. |
| `Ustar.MakeHeader` | OS-lab2-master/pintos/src/lib/ustar.c:82-118 | The header is filled field by field as the specification says, or the name is refused. |
| `Ustar.HeaderFields` | OS-lab2-master/pintos/src/lib/ustar.c:82-118 | The fields that the parser looks at, read back from a made header. |
| `Ustar.HeaderLayout` | OS-lab2-master/pintos/src/lib/ustar.c:10-118 | Every field of struct ustar_header is in its place in a made header: name, the modes 0644 and 0755, owners, size and time in octal, checksum, type, magic, version and user names, with null bytes everywhere else. |
| `Ustar.ParseHeader` | OS-lab2-master/pintos/src/lib/ustar.c:181-227 | The parser returns the outcome that the 512 bytes mean. |
| `Ustar.ParsedExactly` | OS-lab2-master/pintos/src/lib/ustar.c:181-227 | Exactly the headers with the magic string, the version, the right checksum, a name of less than 100 bytes, and a known type with a size that fits are accepted, with that name, type and size; exactly 512 null bytes end the archive. |
| `Ustar.RoundTrip` | OS-lab2-master/pintos/src/lib/ustar.c:36-227 | For every name whose stripped form has at most 99 bytes, parsing a made header gives the stripped name, the type and the size (0 for directories); a regular file of negative size is the one exception. |
| `Ustar.ParsedEntryIsSafe` | OS-lab2-master/pintos/src/lib/ustar.c:181-227 | Whatever the 512 bytes, an accepted entry has a sociable name and a size that fits an int. |
| `Ustar.CorruptionDetected` | OS-lab2-master/pintos/src/lib/ustar.c:36-54 | Changing any one byte outside the checksum field of an accepted header makes the parser refuse it. |
| `Palloc.InitPool` | OS-lab2-master/pintos/src/threads/palloc.c:153-170 | The pool's bitmap fits in the first pages and the pool has the rest, or there is too little memory. |
| `Palloc.Init` | OS-lab2-master/pintos/src/threads/palloc.c:45-62 | The user pool gets half of the pages up to its limit and the kernel pool the others, each as large as its bitmap leaves room for and with every page free; it fails exactly when a bitmap does not fit. |
| `Palloc.Pool.Get` | OS-lab2-master/pintos/src/threads/palloc.c:70-101 | The first group of free pages is marked and returned, or none exactly when there is none. |
| `Palloc.Pool.Free` | OS-lab2-master/pintos/src/threads/palloc.c:117-142 | Exactly the given pages become free. |
| `Palloc.Allocator.FreeMultiple` | OS-lab2-master/pintos/src/threads/palloc.c:117-142 | The pages go back to the pool they came from; the other pool and the null cases are unchanged. |
| `Palloc.GetThenFree` | OS-lab2-master/pintos/src/threads/palloc.c:70-142 | Freeing what was allocated restores the pool. |
| `Malloc.InitDescs` | OS-lab2-master/pintos/src/threads/malloc.c:71-85 | Seven descriptors, with the block sizes and blocks per arena that they imply. |
| `Malloc.BlockInArena` | OS-lab2-master/pintos/src/threads/malloc.c:267-294 | block_to_arena undoes arena_to_block: every block lies in its page, aligned, behind the header. |
| `Malloc.BlocksApart` | OS-lab2-master/pintos/src/threads/malloc.c:285-294 | Blocks of one arena do not overlap. |
| `Malloc.Heap.constructor` | OS-lab2-master/pintos/src/threads/malloc.c:71-85 | No arenas, no free blocks, nothing handed out. |
| `Malloc.Heap.FindDesc` | OS-lab2-master/pintos/src/threads/malloc.c:101-104 | The smallest descriptor that fits. |
| `Malloc.Heap.Malloc` | OS-lab2-master/pintos/src/threads/malloc.c:89-154 | A block that was not handed out, big enough exactly when the size is below 2^32 - 11, from the best descriptor. It succeeds exactly when that descriptor has a free block or a page is free, or, above 1 kB, when the page count does not wrap to zero and that many pages in a row are free; a free block is used before a page is. |
| `Malloc.Heap.MallocBig` | OS-lab2-master/pintos/src/threads/malloc.c:105-120 | Big requests get their own pages, exactly when there are that many free pages in a row; the size condition is exact. |
| `Malloc.Heap.MallocSmall` | OS-lab2-master/pintos/src/threads/malloc.c:122-153 | The first block on the free list if there is one; otherwise a block of a new arena, exactly when a page is free. |
| `Malloc.Heap.Free` | OS-lab2-master/pintos/src/threads/malloc.c:218-264 | The block is no longer handed out, and an arena without live blocks goes back to the page allocator; the allocator's assertions hold. |
| `Malloc.Heap.FreeSmall` | OS-lab2-master/pintos/src/threads/malloc.c:228-256 | The block returns to its list; with the last one the arena's blocks leave the list and the page is freed. |
| `Malloc.PageCntEnough` | OS-lab2-master/pintos/src/threads/malloc.c:109-112 | The 32-bit page count holds request and header if and only if the size is below 2^32 - 11; sizes from 2^32 - 4107 to 2^32 - 12 count zero pages. |
| `Malloc.PageCntWraps` | OS-lab2-master/pintos/src/threads/malloc.c:109-112 | A request of 2^32 - 11 bytes counts one page. |
| `Malloc.LiveBlocksApart` | OS-lab2-master/pintos/src/threads/malloc.c:89-264 | In every state live blocks are disjoint. |
| `Malloc.LiveBlocksClearOfHeaders` | OS-lab2-master/pintos/src/threads/malloc.c:89-264 | In every state live blocks are clear of every arena header. |
| `Malloc.ArenaInUse` | OS-lab2-master/pintos/src/threads/malloc.c:242-253 | Every arena that is kept has a live block. |
| `Malloc.NewArenaKeeps` | OS-lab2-master/pintos/src/threads/malloc.c:125-146 | Turning a free page into an arena keeps lists, counters and page ownership exact. |
| `Malloc.TakeKeeps` | OS-lab2-master/pintos/src/threads/malloc.c:148-153 | Handing out the first free block keeps them exact. |
| `Malloc.GiveKeeps` | OS-lab2-master/pintos/src/threads/malloc.c:239-242 | Taking a block back keeps them exact. |
| `Malloc.AllFree` | OS-lab2-master/pintos/src/threads/malloc.c:242-251 | When the counter reaches the number of blocks, all the arena's blocks are on the free list. |
| `Malloc.DropKeeps` | OS-lab2-master/pintos/src/threads/malloc.c:242-253 | Giving the idle arena's page back keeps them exact. |
| `Malloc.NewBigKeeps` | OS-lab2-master/pintos/src/threads/malloc.c:105-120 | So does a new big block. |
| `Malloc.DropBigKeeps` | OS-lab2-master/pintos/src/threads/malloc.c:257-262 | And freeing one. |
| `PageTable.PdeReadsBack` | OS-lab2-master/pintos/src/threads/pte.h:71-81 | pde_get_pt undoes pde_create on page-aligned addresses, and the entry is present, open to user code and writable. |
| `PageTable.PteReadsBack` | OS-lab2-master/pintos/src/threads/pte.h:87-104 | Page, presence, write and user bits read back from pte_create_user. |
| `PageTable.WalkIsMapping` | OS-lab2-master/pintos/src/threads/pte.h:10-104 | The page walk of the processor (IA-32, volume 3A, section 3.7), which asks both levels for permission, finds exactly the pages of the mapping, each open to user code and writable exactly as mapped, at every user address. |
| `PageTable.EntryWritten` | OS-lab2-master/pintos/src/userprog/pagedir.c:98-157 | Writing one entry of the two-level table changes the mapping of one page. |
| `PageTable.TableAdded` | OS-lab2-master/pintos/src/userprog/pagedir.c:66-81 | A new empty table changes no mapping. |
| `PageTable.PageDir.constructor` | OS-lab2-master/pintos/src/userprog/pagedir.c:16-23 | A new directory has the kernel's entries and maps no user page. |
| `PageTable.CreateDir` | OS-lab2-master/pintos/src/userprog/pagedir.c:16-23 | A directory in a page of its own that maps no user page, or none exactly when no page is free. |
| `PageTable.PageDir.LookupPage` | OS-lab2-master/pintos/src/userprog/pagedir.c:56-86 | The table for a page, made on demand from one kernel page; no mapping changes, the kernel half is untouched, no page is lost. |
| `PageTable.PageDir.SetPage` | OS-lab2-master/pintos/src/userprog/pagedir.c:98-119 | The partial map gains one page with its protection, and the processor then finds it at each of its addresses, open to user code and writable exactly as asked; or it fails exactly when a table is needed and no page is free. |
| `PageTable.PageDir.GetPage` | OS-lab2-master/pintos/src/userprog/pagedir.c:125-137 | The frame and the offset in it exactly when the page is mapped; the tables stay as they are. |
| `PageTable.PageDir.ClearPage` | OS-lab2-master/pintos/src/userprog/pagedir.c:143-157 | The partial map loses one page. |
| `Loader.PlanFits` | OS-lab2-master/pintos/src/userprog/process.c:271-296 | For a validated header none of the 32-bit arithmetic wraps, the assertions of load_segment hold, and the pages cover the segment inside user space with less than a page to spare at either end. |
| `Loader.ValidateMeaning` | OS-lab2-master/pintos/src/userprog/process.c:325-366 | The 32-bit tests pass exactly for segments with equal page offsets that start in the file, are not empty, are no shorter in memory than in the file, and lie between the first page and the kernel. |
| `Loader.PagesOfMeaning` | OS-lab2-master/pintos/src/userprog/process.c:271-296 | The pages that a segment takes are exactly those with one of its bytes on them. |
| `Loader.PhdrReadsBack` | OS-lab2-master/pintos/src/userprog/process.c:171-301 | From the bytes of any program header: type 1 is loaded with its offset, address, sizes and write flag, types 2, 3 and 5 refuse the file, all others are ignored. |
| `Loader.EhdrReadsBack` | OS-lab2-master/pintos/src/userprog/process.c:150-246 | From the bytes of any executable header: it is accepted exactly when its fields are those of a 32-bit little-endian 80386 executable with at most 1024 program headers, and gives the entry point and the place of those headers. |
| `Loader.PlanMeaning` | OS-lab2-master/pintos/src/userprog/process.c:271-296 | Loading the planned pages puts the file's bytes at p_vaddr and zeros up to p_memsz (TIS ELF 1.2, Book I, Program Header). |
| `Loader.Process.InstallPage` | OS-lab2-master/pintos/src/userprog/process.c:456-465 | The page is mapped exactly if it was not mapped already and its table is there or a kernel page is free for it. |
| `Loader.Process.LoadPage` | OS-lab2-master/pintos/src/userprog/process.c:391-423 | One page is filled and mapped, exactly if it was not mapped, there is memory for it and its table, and the read is not short; otherwise nothing is mapped and all memory is given back. Earlier mappings and contents stay. |
| `Loader.Process.LoadSegment` | OS-lab2-master/pintos/src/userprog/process.c:382-425 | The pages hold the file bytes, then zeros; the counters never go below zero; the loop ends; no earlier mapping or content changes; the memory used is exactly one user page for each page and one kernel page for each missing table, and a failure has one of the stated causes. |
| `Loader.Process.LoadPhdr` | OS-lab2-master/pintos/src/userprog/process.c:271-301 | Unless the disk fails it, succeeds exactly when the segment is valid, in the file and on pages that are not taken, and there is enough memory; then exactly those pages are new and hold the segment as its header says. |
| `Loader.Process.SetupStack` | OS-lab2-master/pintos/src/userprog/process.c:429-445 | A zeroed writable page at the top of user memory, exactly if that page is not taken and there is enough memory. |
| `Loader.Process.LoadHeader` | OS-lab2-master/pintos/src/userprog/process.c:246-304 | One program header is read from the file's bytes and acted on; an offset outside the file, a short read or an unsupported type refuses the file. |
| `Loader.Process.Load` | OS-lab2-master/pintos/src/userprog/process.c:208-317 | From the bytes of the file: unless the disk fails it, loading succeeds exactly when the executable header, the table of program headers and every segment fit and there is a user page for each new page and a kernel page for each missing table; then every loadable segment is in memory as its header says, whatever was loaded after it, with the stack, and no other page is mapped. |
| `Loader.StillInMemory` | OS-lab2-master/pintos/src/userprog/process.c:382-425 | Later loading leaves all segments loaded before in memory. |
| `Loader.HeaderFails` | OS-lab2-master/pintos/src/userprog/process.c:244-304 | A turn of the header loop that fails without a disk error shows that the file does not fit or that memory does not suffice for all of it. |
| `Loader.NotEnough` | OS-lab2-master/pintos/src/userprog/process.c:382-465 | If memory runs out on the way, it did not suffice for the whole from the start. |
| `Inode.SectorWrite` | OS-lab2-master/pintos/src/filesys/inode.c:284-308 | Writing a sector splices it into the device seen as one array of bytes. |
| `Inode.ChunkSplits` | OS-lab2-master/pintos/src/filesys/inode.c:206-246 | Moving a chunk and then the rest moves exactly as much as the whole, with or without a bounce buffer. |
| `Inode.ChunkInSector` | OS-lab2-master/pintos/src/filesys/inode.c:46-54 | byte_to_sector gives a sector of the file, and the chunk lies inside it. |
| `Inode.Device.ReadAt` | OS-lab2-master/pintos/src/filesys/inode.c:200-250 | The bytes of the file from the offset up to its end; the count is max(0, min(size, length - offset)), and without a bounce buffer exactly the leading whole sectors. |
| `Inode.Device.ReadChunk` | OS-lab2-master/pintos/src/filesys/inode.c:223-240 | One chunk, directly or through the bounce buffer. |
| `Inode.Device.WriteAt` | OS-lab2-master/pintos/src/filesys/inode.c:257-318 | The device is as before but for the bytes written, which replace the file's from the offset on; nothing is written while writing is denied. |
| `Inode.Device.WriteChunk` | OS-lab2-master/pintos/src/filesys/inode.c:284-308 | One chunk replaces its bytes of the sector and no others, directly or through the bounce buffer. |
| `Inode.Device.Create` | OS-lab2-master/pintos/src/filesys/inode.c:72-106 | The inode's sector describes the data, the file is all zeros, and no other sector changes. |
| `Inode.DecodeEncode` | OS-lab2-master/pintos/src/filesys/inode.c:14-20 | What inode_create writes is what inode_open reads. |
| `Inode.InodeLayout` | OS-lab2-master/pintos/src/filesys/inode.c:15-21 | An inode on the disk is start, length and magic number in little-endian words and zeros behind, as written and as read. |
| `Inode.MovedExact` | OS-lab2-master/pintos/src/filesys/inode.c:206-246 | A transfer moves all that is asked for and there; without a bounce buffer it moves the most of it that is whole sectors. |
| `Inode.WriteThenRead` | OS-lab2-master/pintos/src/filesys/inode.c:200-318 | What was written is read back and the rest of the file is unchanged. |
| `Inode.WriteElsewhere` | OS-lab2-master/pintos/src/filesys/inode.c:257-318 | Writing one file leaves a file in other sectors unchanged. |
| `Inode.BytesToSectors` | OS-lab2-master/pintos/src/filesys/inode.c:25-29 | Enough sectors for every size, and less than one sector too many up to 2^31 - 512 bytes; above that the 32-bit sum overflows and the count is at least 2^32 - 2^22. |
| `Directory.EntryReadsBack` | OS-lab2-master/pintos/src/filesys/directory.c:171-174 | Name, sector and use of the entry that dir_add writes read back, whatever was in the buffer. |
| `Directory.EntryLayout` | OS-lab2-master/pintos/src/filesys/directory.c:17-22 | An entry is written as a little-endian sector, the name with its terminator in 15 bytes and a flag, and exactly the slots of this form are entries with that name and sector. |
| `Directory.ViewSize` | OS-lab2-master/pintos/src/filesys/directory.c:91-179 | When names are unique the map has exactly as many names as entries are in use. |
| `Directory.SlotFilled` | OS-lab2-master/pintos/src/filesys/directory.c:141-179 | Filling a free slot with a new name keeps names unique and adds it to the map. |
| `Directory.SlotFreed` | OS-lab2-master/pintos/src/filesys/directory.c:204-207 | Freeing a slot keeps names unique and removes its name from the map. |
| `Directory.SlotWritten` | OS-lab2-master/pintos/src/filesys/directory.c:170-175 | Writing a slot's bytes changes its entry in the table and no other. |
| `Directory.Dir.ReadEntry` | OS-lab2-master/pintos/src/filesys/directory.c:101-102 | A slot is read exactly up to the last whole one, and only with a bounce buffer. |
| `Directory.Dir.WriteEntry` | OS-lab2-master/pintos/src/filesys/directory.c:175-175 | A slot is written exactly when it lies in the file and there is a bounce buffer; a failed write stays behind the whole slots. |
| `Directory.Dir.Lookup` | OS-lab2-master/pintos/src/filesys/directory.c:91-112 | On any bytes, the entry at which the search ends, exactly when it has the name and every slot up to it can be read. |
| `Directory.FoundIff` | OS-lab2-master/pintos/src/filesys/directory.c:91-112 | The search finds a name exactly when some slot has it and no short read comes first; with memory for every read it decides whether the name is there. |
| `Directory.Dir.FindFree` | OS-lab2-master/pintos/src/filesys/directory.c:166-169 | Where the search for a free slot ends: the first free slot, the end, or a slot that cannot be read. |
| `Directory.Dir.Add` | OS-lab2-master/pintos/src/filesys/directory.c:141-179 | On any bytes: the entry goes to the slot where the search for a free one ends, exactly when the name is valid and not found and there is memory for the write; the table afterwards is exact; and with unique names the promise (a new name is added, or nothing changes) is kept if and only if no short read makes it miss the name or write over an entry in use. |
| `Directory.AddExact` | OS-lab2-master/pintos/src/filesys/directory.c:141-179 | The promise of dir_add is kept exactly when it does not write, or writes a free slot with a name that is new. |
| `Directory.AmpleMemory` | OS-lab2-master/pintos/src/filesys/directory.c:141-179 | With memory for every read dir_add succeeds exactly for a valid fresh name when a slot is free, and keeps its promise. |
| `Directory.LowMemoryHarm` | OS-lab2-master/pintos/src/filesys/directory.c:141-179 | A directory with one entry in which a short read makes dir_add destroy that entry, or add its name a second time. |
| `Directory.FreeSlotIff` | OS-lab2-master/pintos/src/filesys/directory.c:166-169 | A slot is free exactly when there are fewer names than slots. |
| `Directory.Dir.Remove` | OS-lab2-master/pintos/src/filesys/directory.c:184-216 | Succeeds exactly when the name is found, its inode opens and there is memory for the write, and then erases the entry it found; otherwise the table is unchanged. |
| `Directory.Dir.Readdir` | OS-lab2-master/pintos/src/filesys/directory.c:221-236 | The next name in slot order; none at the end or at a slot that cannot be read. |
| `Directory.Dir.ReadAll` | OS-lab2-master/pintos/src/filesys/directory.c:221-236 | Reading from position 0 lists the names in slot order up to the first slot that cannot be read, none twice when names are unique; at the end of the directory exactly those in use. |
| `Directory.ListingExact` | OS-lab2-master/pintos/src/filesys/directory.c:221-236 | The names in slot order are those in use, each once when they are unique. |
| `FileSys.FilesApart` | OS-lab2-master/pintos/src/filesys/inode.c:72-195 | Of two inodes in use neither the data nor the inode sectors overlap. |
| `FileSys.WritesStayInside` | OS-lab2-master/pintos/src/filesys/inode.c:257-318 | Writing one file leaves the contents of every other file in use as they are. |
| `FileSys.Marked` | OS-lab2-master/pintos/src/filesys/free-map.c:27-41 | Marking free sectors keeps every use of a sector exclusive and marked. |
| `FileSys.Unmarked` | OS-lab2-master/pintos/src/filesys/free-map.c:44-50 | Unmarking sectors without a use keeps it, and the assertion of free_map_release holds. |
| `FileSys.Entered` | OS-lab2-master/pintos/src/filesys/filesys.c:45-59 | An entry for an inode in fresh sectors keeps all uses exclusive and marked, and those sectors are no longer without a use. |
| `FileSys.Unlinked` | OS-lab2-master/pintos/src/filesys/directory.c:184-216 | Erasing the entry of an open inode keeps its sectors in use. |
| `FileSys.EntryLost` | OS-lab2-master/pintos/src/filesys/directory.c:141-179 | An entry that disappears under another leaves no sector with two uses; its inode's sectors lose their use exactly when it is not open. |
| `FileSys.MapSaved` | OS-lab2-master/pintos/src/filesys/free-map.c:27-50 | Writing any part of the map to its file keeps every sector in use marked in the file too. |
| `FileSys.Remounted` | OS-lab2-master/pintos/src/filesys/filesys.c:17-31 | With nothing open and the map that is in the file, all entries keep their sectors and none has two uses. |
| `FileSys.Closed` | OS-lab2-master/pintos/src/filesys/inode.c:163-186 | Leaving the open list takes an inode's sectors out of use exactly when no entry refers to it; a removed inode has none. |
| `FileSys.DenyMeaning` | OS-lab2-master/pintos/src/filesys/inode.c:322-338 | Writing is denied exactly while some open file denies it, by no more files than there are openers. |
| `FileSys.BitmapWrite` | OS-lab2-master/pintos/src/lib/kernel/bitmap.c:355-360 | The file holds the map up to where the write stopped and its old contents from there on; all of it exactly when no file denies the write and there is a bounce buffer for a last part of a sector. |
| `FileSys.FileSystem.constructor` | OS-lab2-master/pintos/src/filesys/filesys.c:17-31 | A formatted device: two system inodes in the first sectors with their data behind, written there; no entries, nothing leaked, exactly the rest free, and the map in its file. |
| `FileSys.FileSystem.Mounted` | OS-lab2-master/pintos/src/filesys/filesys.c:17-31 | A device that another file system left, whatever failed there: its entries, nothing open, and the map read back from its file, with all invariants. |
| `FileSys.FileSystem.FreeMapOpen` | OS-lab2-master/pintos/src/filesys/free-map.c:53-61 | One more file on the free map's inode, and the map in memory becomes the one in the file; fails (panics) exactly for want of memory. |
| `FileSys.FileSystem.FreeMapAllocate` | OS-lab2-master/pintos/src/filesys/free-map.c:27-41 | The first group of free sectors, exactly when there is one and the whole map can be written, and then the file holds the map; otherwise the map in memory is as before. |
| `FileSys.RoomByFirstFit` | OS-lab2-master/pintos/src/filesys/filesys.c:45-59 | Room for an inode and its data means room for the data once the first free sector is taken, which is what first fit does. |
| `FileSys.PlacesUnique` | OS-lab2-master/pintos/src/filesys/filesys.c:45-59 | First fit leaves no choice of the two places. |
| `FileSys.FileSystem.FreeMapRelease` | OS-lab2-master/pintos/src/filesys/free-map.c:44-50 | Exactly the given sectors become free, the assertion holds, and the file holds the map when the write is complete. |
| `FileSys.FileSystem.InodeCreate` | OS-lab2-master/pintos/src/filesys/inode.c:72-106 | A new inode over the first group of free sectors, exactly when memory, the group and the map write are there; otherwise no change but to the map's file. |
| `FileSys.FileSystem.InodeOpen` | OS-lab2-master/pintos/src/filesys/inode.c:111-142 | One struct per inode; one more opener, and nothing on disk changes. |
| `FileSys.FileSystem.InodeReopen` | OS-lab2-master/pintos/src/filesys/inode.c:145-151 | One more opener. |
| `FileSys.FileSystem.InodeClose` | OS-lab2-master/pintos/src/filesys/inode.c:163-186 | One opener less; the last close of a removed inode frees exactly its sectors, no other close frees any, and the last close of an inode that lost its entry leaves its sectors without a use. |
| `FileSys.FileSystem.FileOpen` | OS-lab2-master/pintos/src/filesys/file.c:17-34 | The file takes over the inode pointer, or the pointer is closed. |
| `FileSys.FileSystem.FileReopen` | OS-lab2-master/pintos/src/filesys/file.c:38-42 | A second file on the same inode. |
| `FileSys.FileSystem.FileClose` | OS-lab2-master/pintos/src/filesys/file.c:45-54 | The file's denial ends and its inode pointer is closed, with exactly the sectors lost that inode_close loses. |
| `FileSys.FileSystem.FileDenyWrite` | OS-lab2-master/pintos/src/filesys/file.c:118-127 | The file denies writing; the denials never exceed the openers. |
| `FileSys.FileSystem.FileAllowWrite` | OS-lab2-master/pintos/src/filesys/file.c:132-141 | The file no longer denies writing. |
| `FileSys.FileSystem.OpenRoot` | OS-lab2-master/pintos/src/filesys/directory.c:54-58 | One more opener of the root directory exactly when memory allows it, or no change. |
| `FileSys.FileSystem.CloseRoot` | OS-lab2-master/pintos/src/filesys/directory.c:69-77 | One opener of the root directory less. |
| `FileSys.FileSystem.DirAdd` | OS-lab2-master/pintos/src/filesys/directory.c:141-179 | The entry is written exactly as the slots' searches and memory decide; sectors lose their use exactly when it goes over the entry of an inode that is not open. |
| `FileSys.FileSystem.DirLookup` | OS-lab2-master/pintos/src/filesys/directory.c:118-133 | Opens the inode in the entry at which the search ends, exactly when the name is found and the inode can be opened. |
| `FileSys.FileSystem.Create` | OS-lab2-master/pintos/src/filesys/filesys.c:45-59 | An inode is made exactly when the root opens, the allocations are written, there is memory for it and first fit finds room; the call succeeds exactly when moreover dir_add writes the entry. Sectors are lost exactly when the entry is not written and the file has data (the data's sectors), or it goes over the entry of an inode that is not open (that inode's). |
| `FileSys.LeakOnFreshDevice` | OS-lab2-master/pintos/src/filesys/filesys.c:45-59 | An empty name and one sector of data on a fresh device of 16 sectors: creation fails and sector 5 is lost. |
| `FileSys.LeakWithoutBuffer` | OS-lab2-master/pintos/src/filesys/filesys.c:45-59 | Any valid name there, when the write of its slot finds no bounce buffer: creation fails and sector 5 is lost. |
| `FileSys.LeakByOverwriting` | OS-lab2-master/pintos/src/filesys/filesys.c:45-59 | A second file whose search for a free slot cannot read the first: creation succeeds, the first file's entry is gone and its inode in sector 4 is lost. |
| `FileSys.FileSystem.Open` | OS-lab2-master/pintos/src/filesys/filesys.c:66-77 | A file on the inode in the entry at which the search ends, exactly when the name is found and memory allows it; nothing is leaked on any failure. |
| `FileSys.FileSystem.Remove` | OS-lab2-master/pintos/src/filesys/filesys.c:83-91 | Succeeds exactly when the name is found, its inode opens and the slot can be written; the entry goes at once, and the sectors stay in use while anyone has the file open and are freed otherwise. |
| `Volume.Format` | OS-lab2-master/pintos/src/filesys/filesys.c:94-103 | The bytes of a formatted device represent the file system with no entries: both inodes are written, the root directory is sixteen empty slots, and the free map is in its file. |
| `Volume.Undisturbed` | OS-lab2-master/pintos/src/filesys/inode.c:257-318 | What the bytes of the device represent stays represented, with the same contents, while no sector in use changes. |
| `Volume.WriteKeeps` | OS-lab2-master/pintos/src/filesys/inode.c:257-318 | Writing inside one file changes the bytes of no other file, of no inode and not the directory. |
| `Volume.Filled` | OS-lab2-master/pintos/src/filesys/filesys.c:45-59 | After the inode and the slot are written, over another entry or not, the bytes represent the new state, and the new file is all zeros. |
| `Volume.Volume.Write` | OS-lab2-master/pintos/src/filesys/file.c:94-114 | The bytes of the open file change as inode_write_at says, not at all while any open file denies it, and no other file's bytes change. |
| `Volume.Volume.Read` | OS-lab2-master/pintos/src/filesys/file.c:68-85 | The bytes that the device holds for the file from the offset on. |
| `Volume.Volume.Open` | OS-lab2-master/pintos/src/filesys/filesys.c:66-77 | Opening by name gives the file in the entry at which the search ends, exactly when it is found and memory allows it; no file's bytes change. |
| `Volume.Volume.Close` | OS-lab2-master/pintos/src/filesys/file.c:45-54 | Closing keeps the bytes of every file that is still in use. |
| `Volume.Volume.Remove` | OS-lab2-master/pintos/src/filesys/filesys.c:83-91 | The slot is erased from the root directory's bytes exactly on success, whatever memory is missing; all files still in use, removed ones that are open included, keep their bytes. |
| `Volume.Volume.Create` | OS-lab2-master/pintos/src/filesys/filesys.c:45-59 | Whatever memory is missing: success, the entry, the lost sectors and the kept promise of dir_add are exact, the new file is all zeros, no sector has two uses, and all other files in use keep their bytes. |
| `Volume.Volume.Remount` | OS-lab2-master/pintos/src/filesys/filesys.c:17-31 | Mounting the device again between any two calls gives the same entries with the same bytes and no sector with two uses; nothing at all changes when nothing was open and the last write of the map was complete. |
| `Scheduler.SwitchKeeps` | OS-lab2-master/pintos/src/threads/thread.c:502-578 | With a thread to switch to, exactly it is running after the switch and the invariant holds again. |
| `Scheduler.StepKeeps` | OS-lab2-master/pintos/src/threads/thread.c:120-578 | Every step that its guard allows keeps: one running thread; the ready list is exactly the ready threads but the idle one; blocked threads wait on exactly one list; sleepers' deadlines lie ahead; no wakeup is lost. |
| `Scheduler.TickKeeps` | OS-lab2-master/pintos/src/devices/timer.c:175-181 | The timer interrupt, with its possible yield, keeps all of this. |
| `Scheduler.WaitKeeps` | OS-lab2-master/pintos/src/threads/synch.c:69-73 | Joining a semaphore's list and blocking keeps it. |
| `Scheduler.TakeKeeps` | OS-lab2-master/pintos/src/threads/synch.c:74-74 | Taking a unit keeps it, whether the thread was woken or came in between. |
| `Scheduler.WakeFirstKeeps` | OS-lab2-master/pintos/src/threads/synch.c:108-121 | Waking the first waiter keeps it. |
| `Threads.Machine.constructor` | OS-lab2-master/pintos/src/threads/thread.c:87-101 | Exactly the state after thread_init: one thread, running, nothing ready, no idle thread; it satisfies the invariant. |
| `Threads.Machine.Schedule` | OS-lab2-master/pintos/src/threads/thread.c:502-578 | The head of the ready list, or the idle thread, becomes the running one with a fresh time slice. |
| `Threads.Machine.InitThread` | OS-lab2-master/pintos/src/threads/thread.c:467-482 | A new blocked thread at the end of the list of all threads. |
| `Threads.Machine.ThreadUnblock` | OS-lab2-master/pintos/src/threads/thread.c:247-259 | The blocked thread joins the end of the ready list. |
| `Threads.Machine.ThreadStart` | OS-lab2-master/pintos/src/threads/thread.c:173-221 | A thread blocked on its own account becomes ready. |
| `Threads.Machine.BecomeIdle` | OS-lab2-master/pintos/src/threads/thread.c:404-410 | The current thread is the idle thread from now on. |
| `Threads.Machine.ThreadBlock` | OS-lab2-master/pintos/src/threads/thread.c:229-237 | The current thread blocks and another runs. |
| `Threads.Machine.ThreadYield` | OS-lab2-master/pintos/src/threads/thread.c:317-331 | The current thread goes to the end of the ready list, unless it is the idle thread, and another runs. |
| `Threads.Machine.ThreadExit` | OS-lab2-master/pintos/src/threads/thread.c:296-313 | The current thread is gone from every list and another runs. |
| `Threads.Machine.TimerSleep` | OS-lab2-master/pintos/src/devices/timer.c:89-102 | The thread blocks until the 64-bit sum of the tick count and n; no effect unless n is positive. |
| `Threads.Machine.SemaInitialize` | OS-lab2-master/pintos/src/threads/synch.c:44-51 | The value is set and nobody waits. |
| `Threads.Machine.SemaDown` | OS-lab2-master/pintos/src/threads/synch.c:60-76 | One look at the value: a unit is taken, or the thread joins the list and blocks. |
| `Threads.Machine.SemaTryDown` | OS-lab2-master/pintos/src/threads/synch.c:83-102 | A unit is taken exactly when there is one. |
| `Threads.Machine.SemaUp` | OS-lab2-master/pintos/src/threads/synch.c:108-121 | The first waiter, if any, becomes ready, and the value rises by one. |
| `Threads.Machine.UpdateSleeping` | OS-lab2-master/pintos/src/threads/thread.c:120-126 | A thread whose time has come is woken, any other is left alone. |
| `Threads.Machine.WakeAll` | OS-lab2-master/pintos/src/threads/thread.c:335-348 | The loop over all threads wakes exactly those that are due, in list order. |
| `Threads.Machine.TimerInterrupt` | OS-lab2-master/pintos/src/devices/timer.c:175-181 | The tick count rises, the due threads join the ready list, and at the end of the time slice the interrupted thread yields. |
| `Runs.BootHolds` | OS-lab2-master/pintos/src/threads/thread.c:87-101 | The first state satisfies the invariant. |
| `Runs.Safety` | OS-lab2-master/pintos/src/threads/thread.c:120-578 | Every state of every run satisfies the invariant; runs are defined by the steps' guards alone. |
| `Runs.SafetyFromBoot` | OS-lab2-master/pintos/src/threads/thread.c:87-101 | So does every state that a run from the state after thread_init reaches. |
| `Runs.IdleStays` | OS-lab2-master/pintos/src/threads/thread.c:404-415 | Once known, the idle thread is the idle thread in every later state. |
| `Runs.SomeThreadRuns` | OS-lab2-master/pintos/src/threads/thread.c:502-509 | In every state after the idle thread has started there is a thread to switch to, so that schedule never fails to find one. |
| `Runs.CallsPossible` | OS-lab2-master/pintos/src/threads/thread.c:120-578 | Once the idle thread has started, every call can be made whenever what it asks of its caller holds. |
| `Runs.CurrentActs` | OS-lab2-master/pintos/src/threads/thread.c:404-578 | The running thread can act, or was woken inside sema_down and looks at the value again. |
| `Runs.StartUpRuns` | OS-lab2-master/pintos/src/threads/thread.c:105-118 | Without timer interrupts the start-up runs to its end: the idle thread is known and the initial thread about to pass the semaphore. |
| `Runs.NeverStuck` | OS-lab2-master/pintos/src/threads/thread.c:105-118 | Wherever thread_start and idle are, what their code does next can be done: a thread to switch to is there. |
| `Runs.StartUpFromBoot` | OS-lab2-master/pintos/src/threads/thread.c:105-118 | Every interleaving of thread_start and idle with timer interrupts anywhere is a run: it never asks for a thread that is not there. |
| `Runs.SleeperUndisturbed` | OS-lab2-master/pintos/src/devices/timer.c:89-102 | No step before its wakeup time touches a sleeping thread. |
| `Runs.StaysAsleep` | OS-lab2-master/pintos/src/devices/timer.c:89-102 | In every run a sleeper sleeps on until its wakeup time. |
| `Runs.WokenOnTime` | OS-lab2-master/pintos/src/devices/timer.c:175-181 | The tick at the wakeup time puts the sleeper on the ready list. |
| `Runs.AlarmClock` | OS-lab2-master/pintos/src/devices/timer.c:89-181 | timer_sleep (n) at tick T: in every run blocked through tick T + n - 1, and on the ready list by exactly the interrupt that makes it T + n, when T + n < 2^63. |
| `Runs.AlarmOverflow` | OS-lab2-master/pintos/src/devices/timer.c:89-102 | When T + n >= 2^63 the thread is never woken, in any run. |
| `Runs.WakeOrder` | OS-lab2-master/pintos/src/threads/thread.c:335-348 | What a tick wakes was due at that tick, and joins in the order of the list of all threads. |
| `Runs.DeadlineOrder` | OS-lab2-master/pintos/src/devices/timer.c:175-181 | In every run the sleeper with the earlier deadline is back while the later one sleeps. |
| `Runs.ReadyMoves` | OS-lab2-master/pintos/src/threads/thread.c:502-578 | Each call of schedule moves the ready list on by one; nothing else takes a thread off it. |
| `Runs.WaitsInLine` | OS-lab2-master/pintos/src/threads/thread.c:502-578 | After j <= i calls of schedule the thread at index i is at index i - j. |
| `Runs.BoundedWaiting` | OS-lab2-master/pintos/src/threads/thread.c:502-578 | A thread at index i of the ready list runs after exactly i + 1 further calls of schedule. |
| `Runs.TicksForceSwitches` | OS-lab2-master/pintos/src/threads/thread.c:130-148 | In every run there is a switch at least every four ticks. |
| `Runs.BoundedTicks` | OS-lab2-master/pintos/src/threads/interrupt.c:378-388 | A thread at index i of the ready list runs within 4 * (i + 1) ticks. |
| `Runs.LineMoves` | OS-lab2-master/pintos/src/threads/thread.c:502-578 | After every step, exactly: who joins stands behind those who were ready, and a call of schedule runs the first of them, or the idle thread exactly when there is none. |
| `Runs.BlockedUndisturbed` | OS-lab2-master/pintos/src/threads/thread.c:229-259 | A blocked thread is left as it is by every step that does not awaken it. |
| `Runs.StaysBlocked` | OS-lab2-master/pintos/src/threads/thread.c:229-259 | Over every run without an awakening a blocked thread stays blocked, off the ready list and does not run. |
| `Runs.BlockLasts` | OS-lab2-master/pintos/src/threads/thread.c:229-237 | A thread that blocks gives up the processor, also when nobody is ready, and does not run in any run in which nobody unblocks it. |
| `Runs.ExitLasts` | OS-lab2-master/pintos/src/threads/thread.c:296-313 | A thread that exited never runs again, unless one of that name is created. |
| `Runs.KeysStep` | OS-lab2-master/pintos/src/threads/thread.c:173-482 | Threads come by creation and go by exit only, and the list of all threads stays in the order of their creation. |
| `Runs.SemaphoreLaw` | OS-lab2-master/pintos/src/threads/synch.c:60-121 | Over every run the value is the start value plus ups minus completed downs, and threads are woken in the order in which they came. |
| `Runs.SomeoneIsComing` | OS-lab2-master/pintos/src/threads/synch.c:60-121 | While threads wait and the value is positive, a woken thread is running or on the ready list. |
| `Monitor.MutualExclusion` | OS-lab2-master/pintos/src/threads/synch.c:192-236 | Two threads are never both past sema_down and before sema_up of one lock. |
| `Monitor.LockDownKeeps` | OS-lab2-master/pintos/src/threads/synch.c:192-221 | Acquiring, blocking or not, keeps value plus threads inside at 1 and the holder right. |
| `Monitor.AcquireOutcome` | OS-lab2-master/pintos/src/threads/synch.c:192-201 | A thread that acquires is inside at once exactly if nobody was; otherwise it is left blocked, last in line for the lock. |
| `Monitor.TryOutcome` | OS-lab2-master/pintos/src/threads/synch.c:209-221 | Trying to acquire succeeds exactly if nobody is inside, and never blocks. |
| `Monitor.HolderKeeps` | OS-lab2-master/pintos/src/threads/synch.c:200-234 | So do the assignments of the holder, which happen with interrupts on. |
| `Monitor.LockUpKeeps` | OS-lab2-master/pintos/src/threads/synch.c:228-236 | So does releasing. |
| `Monitor.CondJoinKeeps` | OS-lab2-master/pintos/src/threads/synch.c:297-298 | Joining the waiters keeps joined = signalled followed by waiting. |
| `Monitor.WaitOutcome` | OS-lab2-master/pintos/src/threads/synch.c:287-299 | A thread that waits is the last waiter, with a semaphore of its own on which it alone may wait. |
| `Monitor.WaiterOutcome` | OS-lab2-master/pintos/src/threads/synch.c:300-300 | A waiter goes on at once exactly if it has been signalled, and is blocked otherwise. |
| `Monitor.CondLock` | OS-lab2-master/pintos/src/threads/synch.c:259-265 | A condition variable starts without waiters and belongs to one lock for good. |
| `Monitor.CondDownKeeps` | OS-lab2-master/pintos/src/threads/synch.c:300-300 | A waiter passes only after its own signal, and at most once. |
| `Monitor.CondSignalKeeps` | OS-lab2-master/pintos/src/threads/synch.c:311-322 | A signal goes to the waiter that joined first. |
| `Monitor.SignalNotLost` | OS-lab2-master/pintos/src/threads/synch.c:287-322 | A waiter that was signalled and has not passed finds its semaphore up and is not left blocked, also when the signal came before it blocked. |
| `Monitor.SignalledInOrder` | OS-lab2-master/pintos/src/threads/synch.c:287-322 | Signals go to waiters in the order in which they joined, and nobody passes without one. |
| `Monitor.SignalsStay` | OS-lab2-master/pintos/src/threads/synch.c:287-322 | Over every run what was signalled stays signalled, in the same order. |
| `Monitor.BroadcastEmpties` | OS-lab2-master/pintos/src/threads/synch.c:330-338 | A broadcast, with any actions of other threads in between, empties the list exactly when it has signalled as often as there were waiters, and then they were released in the order in which they joined. |
| `Monitor.BroadcastRun` | OS-lab2-master/pintos/src/threads/synch.c:330-338 | Meanwhile nobody joins, nobody else signals, the lock stays held, and each signal goes to the next waiter. |
| `Monitor.ActKeeps` | OS-lab2-master/pintos/src/threads/synch.c:175-338 | Every action of every thread keeps the laws of locks and condition variables. |
| `Monitor.MonitorSafety` | OS-lab2-master/pintos/src/threads/synch.c:175-338 | They hold over every run. |
| `Monitor.MonitorFromBoot` | OS-lab2-master/pintos/src/threads/synch.c:175-338 | In particular over every run from the state after thread_init. |
| `Tokens.TokenizeSpelled` | OS-lab1-master/code/parse.c:128-157 | Any text that spells a sequence of tokens, with white space where needed, is cut into exactly those tokens. |
| `Tokens.JoinSpells` | OS-lab1-master/code/parse.c:128-157 | Tokens joined by single spaces spell themselves. |
| `Tokens.ParseUndoesPrint` | OS-lab1-master/code/parse.c:26-183 | Parsing undoes printing, for every layout of the printed tokens. |
| `Tokens.AcceptedIsCanonical` | OS-lab1-master/code/parse.c:26-183 | Every accepted line stands for a well-formed command whose printed form means the same. |
| `Grammar.AcceptedExactly` | OS-lab1-master/code/parse.c:26-196 | A line is accepted with a meaning exactly when a grammar that does not mention the parser has the line with that meaning: a program, then pipes into programs and redirections in any order, each kind of redirection at most once, and maybe an ampersand at the end. |
| `Grammar.LackingExactly` | OS-lab1-master/code/parse.c:74-109 | The parser looks at what an earlier line left exactly for a line of the grammar followed by a redirection that may stand there and nothing else. |
| `Grammar.TokensSpelled` | OS-lab1-master/code/parse.c:128-157 | Every line without a null byte is spelled by the tokens it is cut into. |
| `Parser.Buffers.NextToken` | OS-lab1-master/code/parse.c:128-157 | The next token lands null-terminated in the character buffer, and the number of characters consumed is returned. |
| `Parser.Buffers.Acmd` | OS-lab1-master/code/parse.c:159-183 | The words up to the next special token become a null-terminated argument list. |
| `Parser.Buffers.IsIdentifierAt` | OS-lab1-master/code/parse.c:187-196 | The string is made of identifier characters. |
| `Parser.Buffers.Init` | OS-lab1-master/code/parse.c:115-126 | The three buffers are empty and the command records are chained. |
| `Parser.Buffers.Redirect` | OS-lab1-master/code/parse.c:74-109 | The redirection names the file when it is an identifier, and the line is refused when it is not; a missing name is what an earlier line left in the buffer. |
| `Parser.Buffers.Parse` | OS-lab1-master/code/parse.c:26-113 | For a line that fits the buffers the return value and the filled record are what the line means, with programs linked last to first; when a redirection lacks its file name, the answer is whether the string left in the buffer is an identifier. |
| `Parser.EmptyLeftover` | OS-lab1-master/code/parse.c:187-196 | On a cleared buffer the missing name is the empty string, which passes for an identifier: the line is accepted. |
| `Parser.PrintedLine` | OS-lab1-master/code/parse.c:26-196 | A printed command fits, in whatever layout, exactly when its words, programs and redirections do; then parsing gives the command back. |
| `Pipeline.World.RedirectStdout` | OS-lab1-master/code/lsh.c:79-91 | The table after making the write end standard output and closing both ends, for any table. |
| `Pipeline.World.RedirectStdin` | OS-lab1-master/code/lsh.c:108-120 | The table after making the read end standard input and closing both ends, for any table. |
| `Pipeline.World.StartRightmost` | OS-lab1-master/code/lsh.c:293-310 | The tables after starting the rightmost program, from any table of the shell. |
| `Pipeline.World.StartMiddle` | OS-lab1-master/code/lsh.c:312-336 | The tables after starting a middle program, from any table: it is given the previous pipe and a new one, and the leader lets go of the previous one. |
| `Pipeline.World.BecomeLeftmost` | OS-lab1-master/code/lsh.c:339-343 | The table of the leader as the leftmost program, from any table. |
| `Pipeline.World.RunPipeline` | OS-lab1-master/code/lsh.c:291-347 | For any number n >= 2 of programs and any table of the shell: the tables that result, and that they are wired as the pipeline says if and only if standard input and standard output were open; then each end of each pipe is held by exactly one process. |
| `Pipeline.WiredIffStandard` | OS-lab1-master/code/lsh.c:291-347 | All stages are wired as the pipeline says if and only if standard input and standard output were open in the shell. |
| `Pipeline.ReaderNeedsStdin` | OS-lab1-master/code/lsh.c:108-120 | A shell without standard input starts its rightmost program without one. |
| `Pipeline.WriterNeedsStdout` | OS-lab1-master/code/lsh.c:79-91 | A shell with standard input but without standard output starts the second program from the right without one. |
| `Pipeline.ClosedStdinFails` | OS-lab1-master/code/lsh.c:108-120 | With standard input closed the rightmost of two programs ends without it. |
| `Pipeline.ClosedStdoutFails` | OS-lab1-master/code/lsh.c:79-91 | With standard output closed the leftmost of two programs ends without it. |
| `Pipeline.PipeOwnership` | OS-lab1-master/code/lsh.c:291-347 | In a wired stage the write end of a pipe is held exactly as standard output of the program to its left, and the read end exactly as standard input of the program to its right. |
| `Pipeline.WorldOwnership` | OS-lab1-master/code/lsh.c:291-347 | Over all processes of a wired pipeline each end is held by exactly one, under one descriptor. |

## Left out

- Parser.Buffers.Parse: for a redirection without a file name nothing is said when the buffer has no terminator from the cursor to its end.
- Threads.Machine.SemaDown: one pass of the loop, because the thread is switched out in the middle of it; the whole call is a sequence of such steps in module Runs.
- Volume.Volume.Read: the buffer is one of its own; a buffer that is part of the device's memory is not modelled.
- Volume.Volume.Write: not for the file of the free map, which only the free map's code writes.
- FileSys.FileSystem.FreeMapOpen: what is left after a panic is not described.
- Malloc.Heap.Malloc: the contents of blocks, `calloc` and `realloc` are not modelled.
- Pipeline.World.RunPipeline: no system call fails, and `execvp` is where a program's part ends.
- Real concurrency inside malloc, palloc and the file system: their operations are atomic here.
- Priorities, the multi-level feedback queue and the batch scheduler: not implemented in the source.
- Interrupt tables, the switch of stacks in assembly, the TLB, device drivers, the block layer and the boot loader.
- `list_max`, `list_min`, `list_size`, hash functions, `hash_clear`, `hash_apply`, `bitmap_count`, string functions, `atoi`: not modelled.
- printf conversions other than integers, and the parsing of the format string.
- `pagedir_destroy`, dirty and accessed bits: not modelled.
- The shell's builtins, signal handlers and job control.
- User programs, system calls and the test programs.
