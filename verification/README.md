# Half conversion, driver links and section names: a Dafny model

The project models three pieces of the Mesa tree and proves what each promises.

**Half precision (`include/CL/cl_half.h`).** `HalfConversion` and `HalfWidening` hold the conversions
statement by statement on bit patterns: shifts, masks, `|` and the narrowing casts are the C ones, written
out over natural numbers in `Bits` (a shift demands a shift amount below the word's width, a cast drops the
bits it drops in C). `cl_half_from_float` and `cl_half_from_double` are one algorithm with two sets of
constants, so there is one method, `HalfFromFormat`, for every source format with at least 12 significand
digits and MAX_EXP of at least 27; since the exponent field is cut out with a mask, MAX_EXP is a power of
two and 27 means six exponent bits. Binary32 and binary64 are two instances.

The specification does not follow the code. `Ieee754` says what a pattern denotes (section 3.4 of
IEEE 754-2008), `Rounding.CorrectlyRounded` says what a rounded result is: nearest with ties to even and
infinity from 65520 on (section 4.3.1), or the tightest bound in the mode's direction (section 4.3.2),
quantified over all half patterns. `Neighbours` proves that every real number has exactly one correctly
rounded half, which makes `Round` a function, and the methods are proved to compute it. The argument is a
ladder: the unsigned half patterns 0..0x7C00 increase in value when 0x7C00 stands for 65536, so rounding
up is always the next pattern. The theorems in `HalfTheorems` then hold for all inputs of all formats.

**Driver links (`bin/install_megadrivers.py`).** `Directory` is one directory as a map from names to
files, folders and links that the three loops rewrite. `Installer` says in closed form what a run leaves.
Every written name ends up as a link to the megadriver or to a longer driver name that itself links to the
megadriver, however the drivers' name chains overlap and in whatever order they come. What can go wrong is
found exactly: when the megadriver lives in the same directory and its own name is a driver or in a
driver's chain, the run deletes the library and leaves a cycle (`OverwriteExample` shows one), and
otherwise every name that survives resolves. A driver that the clean-up removes never leaves a dangling
link behind, because everything that linked to it is removed with it.

**Section names (`android/package.py`).** `Elf` is the reader on arbitrary bytes, Python's clamped slices
and exceptions included. `ElfTheorems` describes ELF64 files from the writing side (System V ABI, chapter
4: ELF Header, Sections, String Table), with tables anywhere and names sharing string-table bytes, and
proves that the reader reports exactly the `.symtab` and `.debug*` sections, in order. `ElfExact` says from
the bytes alone what the reader answers on every file, damaged ones included, and `PackageGate` what the
script's check of a driver's libraries lets through.

Files: `Bits`, `Ieee754`, `Rounding`, `Neighbours`, `Truncation`, `HalfConversion`, `HalfWidening`,
`HalfTheorems`; `FileNames`, `Installer`, `InstallRun`, `InstallTheorems`; `Elf`, `ElfTheorems`,
`ElfExact`, `PackageGate`. `dafny verify dfyconfig.toml` covers the whole project.

## Model

| member | source | states |
|---|---|---|
| `HalfConversion.HalfFromFormat` | include/CL/cl_half.h:109-229 | for every pattern of every convertible format and every mode the bit-level algorithm returns the specified half: the unique correctly rounded value, infinities kept, NaNs quieted |
| `HalfTheorems.HalfFromFloat` | include/CL/cl_half.h:109-124 | the binary32 instance, told from the 32-bit word alone: field positions and bias as literal numbers, NaN and infinity bits, and correct rounding of the number the fields denote |
| `HalfTheorems.HalfFromDouble` | include/CL/cl_half.h:235-355 | the binary64 instance, told from the 64-bit word alone in the same way |
| `HalfTheorems.FloatLiterals` | include/CL/cl_platform.h:284-286 | binary32 has its fraction in bits 0-22, its exponent in bits 23-30 with bias 127, and denotes 2^23 + t at exponent e - 150 |
| `HalfTheorems.DoubleLiterals` | include/CL/cl_platform.h:306-308 | binary64 has its fraction in bits 0-51, its exponent in bits 52-62 with bias 1023, and denotes 2^52 + t at exponent e - 1075 |
| `HalfTheorems.ConversionIsCorrectRounding` | include/CL/cl_half.h:152-228 | a half is the result for a finite input if and only if it is correctly rounded in the sense of IEEE 754 |
| `HalfTheorems.FormatsAgree` | include/CL/cl_half.h:235-312 | a number gives the same half bits from every format that holds it, in every mode |
| `HalfTheorems.ConversionMonotone` | include/CL/cl_half.h:158-228 | order is kept in every mode, across formats, zeros, subnormals, binades and infinities |
| `HalfTheorems.RoundMonotone` | include/CL/cl_half.h:187-219 | the same for rounding any two real numbers, whatever the sign asked for at zero |
| `HalfTheorems.Enclosure` | include/CL/cl_half.h:205-218 | RTN and RTP enclose the number; RTE and RTZ return one of the two; they coincide exactly on the numbers that are halves and are neighbouring patterns otherwise |
| `HalfTheorems.ConversionEnclosure` | include/CL/cl_half.h:187-228 | the same for every input pattern of every format that is not a NaN, infinities included |
| `HalfTheorems.NearestError` | include/CL/cl_half.h:189-201 | RTE errs by at most 2^-25 below 2^-14 and by at most 2^-11 of the number from there to 65520 |
| `HalfTheorems.DirectedError` | include/CL/cl_half.h:202-219 | up to 65504 every mode gives a finite half less than one unit in the last place away |
| `HalfTheorems.SignSymmetry` | include/CL/cl_half.h:64-81 | flipping the sign of any input flips the sign of the result, with RTP and RTN exchanged |
| `HalfTheorems.FourModes` | include/CL/cl_half.h:182-219 | the four results for one number lie on two neighbouring patterns, the lower being the truncation |
| `HalfTheorems.RoundTrip` | include/CL/cl_half.h:361-362 | a half widened to float and converted back, in any mode, is the same bit for bit; a NaN comes back with only its quiet bit set |
| `HalfTheorems.RoundTripThrough` | include/CL/cl_half.h:181-182 | the same through any convertible format that holds the half's value |
| `HalfTheorems.NaNRoundTrip` | include/CL/cl_half.h:138-144 | a NaN's payload survives both conversions |
| `HalfTheorems.HalfRoundsToItself` | include/CL/cl_half.h:184-187 | the number a half denotes rounds to that half in every mode |
| `HalfTheorems.ConvertedInfinite` | include/CL/cl_half.h:135-150 | infinities and signs are kept, and only a NaN gives a NaN |
| `HalfTheorems.WideningUnique` | include/CL/cl_half.h:426-427 | the widening specification determines every bit of the float |
| `HalfTheorems.WideningInjective` | include/CL/cl_half.h:370-378 | different halves that are not NaNs widen to different floats |
| `HalfTheorems.WideningKeepsOrder` | include/CL/cl_half.h:402-426 | finite halves and their floats are ordered alike as patterns |
| `HalfConversion.OverflowIsRounding` | include/CL/cl_half.h:61-82 | the overflow helper returns what the specification gives for every number of at least 2^16 |
| `HalfConversion.UnderflowIsRounding` | include/CL/cl_half.h:87-103 | the underflow helper returns what the specification gives for every non-zero number below 2^-25 |
| `HalfConversion.OverflowPath` | include/CL/cl_half.h:158-162 | the inputs with exponent 16 or more are those numbers, so the early exit changes no result |
| `HalfConversion.UnderflowPath` | include/CL/cl_half.h:164-168 | the inputs with exponent below -25, every source subnormal among them, are those numbers |
| `HalfConversion.FieldsExtracted` | include/CL/cl_half.h:119-124 | shifting and masking a pattern yields its sign, exponent and fraction fields |
| `HalfConversion.UnbiasedExponent` | include/CL/cl_half.h:126-127 | removing the bias in unsigned arithmetic and reading the word as signed gives the true exponent |
| `HalfConversion.Classified` | include/CL/cl_half.h:135-156 | the tests on the fields tell NaN, infinity and zero |
| `HalfConversion.NaNPath` | include/CL/cl_half.h:138-143 | a NaN keeps its sign and leading payload bits and is quieted |
| `HalfConversion.InfinityPath` | include/CL/cl_half.h:145-149 | an infinity stays one, with its sign |
| `HalfConversion.ZeroPath` | include/CL/cl_half.h:152-156 | a zero is kept with its sign, as the specification rounds it |
| `HalfConversion.TruncatedPattern` | include/CL/cl_half.h:170-182 | the shift amount is between P-11 and P (13..24 for float, 42..53 for double), the narrowed mantissa is below 0x400, and the fields denote the truncated number |
| `HalfConversion.RemainderMask` | include/CL/cl_half.h:184-186 | halfway and mask fit their word, and masking yields the bits shifted out |
| `HalfConversion.GeneralPath` | include/CL/cl_half.h:181-190 | the bits shifted out decide how the number compares with the truncated pattern, the next one and their midpoint |
| `HalfConversion.RoundedPath` | include/CL/cl_half.h:187-220 | acting on that comparison as the mode's case does gives the correctly rounded half |
| `HalfConversion.RoundMantissa` | include/CL/cl_half.h:187-219 | the switch adds one exactly when the mode asks for it |
| `HalfConversion.Pack` | include/CL/cl_half.h:221-228 | carry and packing give the pattern of the unrounded fields plus the increment, through every binade boundary up to infinity |
| `HalfConversion.FieldPack` | include/CL/cl_half.h:228-228 | sign, exponent and mantissa fields never overlap when combined by `or`, and the 16-bit result loses nothing |
| `HalfConversion.ShiftAndRound` | include/CL/cl_half.h:181-228 | from the prepared significand to the specified half |
| `HalfConversion.GeneralInput` | include/CL/cl_half.h:170-228 | the same for every input that takes no early exit, subnormal results included |
| `HalfConversion.FiniteInput` | include/CL/cl_half.h:152-228 | the specified half for every finite input |
| `HalfWidening.HalfToFloat` | include/CL/cl_half.h:361-428 | the float has the same sign and denotes the same number or infinity; a NaN has the quieted payload |
| `HalfWidening.FiniteToFloat` | include/CL/cl_half.h:402-427 | zeros, subnormal and normal halves are widened exactly |
| `HalfWidening.Normalise` | include/CL/cl_half.h:412-421 | the loop ends after one to ten steps with the leading one at bit ten and no bit lost |
| `HalfWidening.NaNWidened` | include/CL/cl_half.h:384-393 | a NaN keeps sign and payload and is quieted |
| `HalfWidening.SubnormalWidened` | include/CL/cl_half.h:421-426 | the adjusted exponent field makes the normalised mantissa denote the subnormal number |
| `HalfWidening.NormalWidened` | include/CL/cl_half.h:377-381 | rebiasing the exponent keeps the number |
| `Rounding.HalfIsFormat` | include/CL/cl_platform.h:294-303 | the half-specific definitions agree with the general interchange format at 11 digits and 5 exponent bits |
| `Neighbours.LocalSound` | include/CL/cl_half.h:189-218 | a pattern that is right against its two neighbours is right against all patterns |
| `Neighbours.RoundedExists` | include/CL/cl_half.h:41-50 | every real number has a correctly rounded half in every mode |
| `Neighbours.RoundedUnique` | include/CL/cl_half.h:44-50 | and only one |
| `Ieee754.UnitsStep` | include/CL/cl_half.h:221-226 | adding one to a pattern adds one unit in the last place, within a binade and across its boundary |
| `Ieee754.AbsValueIncreasing` | include/CL/cl_half.h:54-55 | patterns are ordered as the numbers they denote |
| `FileNames.Splitext` | bin/install_megadrivers.py:82-82 | stem and extension make up the name; an extension starts with its only dot, after something other than dots, and is empty only when no such dot exists |
| `FileNames.ChainShorter` | bin/install_megadrivers.py:83-91 | every name the suffix loop reaches is a shorter beginning of the driver's name, so the loop ends |
| `FileNames.ChainTransitive` | bin/install_megadrivers.py:88-91 | the names reached from a reached name are reached too |
| `FileNames.ChainEndsInSuffix` | bin/install_megadrivers.py:83-87 | when the loop ends normally, the last name carries the suffix |
| `FileNames.ChainExact` | bin/install_megadrivers.py:82-91 | told from the dots: the loop reaches exactly the beginnings of the name that end before a dot after its last `.suffix` extension |
| `FileNames.VersionedExact` | bin/install_megadrivers.py:83-87 | the loop ends normally if and only if one of the name's extensions is `.suffix` |
| `InstallRun.Directory.LinkVersions` | bin/install_megadrivers.py:82-91 | every name of the chain becomes a link to the driver, or the loop stops at a missing suffix or a folder with exactly the earlier names linked |
| `InstallRun.Directory.InstallDriver` | bin/install_megadrivers.py:67-93 | the links of one driver overrule whatever the directory held under those names |
| `InstallRun.Directory.InstallDrivers` | bin/install_megadrivers.py:67-93 | later drivers overrule earlier ones; the first driver without the suffix stops the run after its links are written |
| `InstallRun.Directory.CleanUp` | bin/install_megadrivers.py:95-104 | exactly the megadriver's shorter version names are removed |
| `InstallRun.Directory.Install` | bin/install_megadrivers.py:67-104 | the run succeeds exactly when every name carries the suffix and no folder is in the way; then the megadriver's shorter names are gone, every other written name has the link of the last driver that writes it, and every other name is as before; a missing suffix leaves the same for the drivers up to that one; no folder is ever lost |
| `Installer.LinksAreShort` | bin/install_megadrivers.py:70-90 | a written name links to the megadriver, or to a longer driver name that does, whatever the order and overlap of drivers |
| `Installer.LinksAreByLast` | bin/install_megadrivers.py:67-90 | a written name has the link of the last driver that writes it: to the megadriver from the driver's own name, to the driver from a shorter one |
| `Installer.ClosedFormKeepsPromise` | bin/install_megadrivers.py:70-103 | the closed form of the directory says of every name whether it is gone, linked by the last driver that writes it, or as before |
| `InstallTheorems.SurvivorLinks` | bin/install_megadrivers.py:88-103 | a surviving name links to the megadriver or to a surviving driver that does |
| `InstallTheorems.DriverSurvives` | bin/install_megadrivers.py:95-103 | the clean-up removes no driver that a surviving name still links to |
| `InstallTheorems.SurvivorResolves` | bin/install_megadrivers.py:73-90 | unless the megadriver is overwritten, every surviving name reaches it within two links |
| `InstallTheorems.ResolutionExact` | bin/install_megadrivers.py:67-90 | all surviving names resolve if and only if the megadriver's name is not written in its own directory; otherwise none does |
| `InstallTheorems.EveryDriverResolves` | bin/install_megadrivers.py:95-104 | every driver resolves if and only if, besides, no driver is one of the removed names |
| `InstallTheorems.OverwriteExample` | bin/install_megadrivers.py:70-76 | a driver named like the megadriver replaces the library by a link to itself |
| `InstallTheorems.OverwritingMakesACycle` | bin/install_megadrivers.py:70-90 | overwriting the megadriver always leaves it on a cycle of links |
| `InstallTheorems.NoNewCycle` | bin/install_megadrivers.py:76-90 | otherwise a cycle anywhere in the directory was there before the run |
| `InstallTheorems.InstallIdempotent` | bin/install_megadrivers.py:67-104 | after a successful run a second one is possible and changes nothing |
| `InstallTheorems.InstallTwice` | bin/install_megadrivers.py:40-104 | the same for two calls on one directory |
| `Elf.UnstrippedSections` | android/package.py:61-77 | on any bytes the method returns the specified reading, which `RefusalsExact` and `AnswersExact` tell from the bytes |
| `Elf.ReadNames` | android/package.py:73-76 | the decoded name of every section, or failure exactly when some name is not terminated |
| `Elf.IndexOfNul` | android/package.py:76-76 | the first zero byte at or after the offset, if there is one |
| `ElfExact.RefusalsExact` | android/package.py:64-76 | from the bytes alone: a file is refused as foreign if and only if it lacks the magic bytes, has a class byte other than 2 or a data byte other than 1; it gives an index error if and only if it ends within those six bytes or its string table index is no section; it fails for want of a terminator if and only if some section's name has no zero byte after it |
| `ElfExact.AnswersExact` | android/package.py:66-77 | for every other file, well-formed or not, each section has a name at its computed offset and the answer is the strippable ones, decoded, in order |
| `ElfExact.RecordRead` | android/package.py:70-75 | a field of a cut-out section header is the little-endian number at its place, with bytes past the header or the file counting as zero |
| `ElfTheorems.ReaderIsExact` | android/package.py:61-77 | on every well-formed ELF64 little-endian file the answer is exactly the strippable section names, decoded, in order |
| `ElfTheorems.WriteThenRead` | android/package.py:66-77 | the answer on a file written with given section names is the strippable ones |
| `ElfTheorems.StrippableIsSublist` | android/package.py:77-77 | the strippable names stand at increasing positions, which are exactly the positions of names equal to `.symtab` or starting with `.debug` |
| `ElfTheorems.WriterIsWellFormed` | android/package.py:66-72 | the writer's files have the described layout |
| `ElfTheorems.HeaderRead` | android/package.py:64-69 | the header fields are read as they were written |
| `ElfTheorems.LittleRoundTrip` | android/package.py:66-69 | a number that fits is read back from its little-endian bytes |
| `ElfTheorems.NameRead` | android/package.py:75-76 | a terminated name is read back from its offset, wherever it stands |
| `ElfTheorems.DecodingKeepsNames` | android/package.py:76-77 | replacing non-ASCII bytes neither hides nor invents a reported name |
| `PackageGate.CheckLibrary` | android/package.py:94-99 | missing if and only if the file is not there, unreadable with the reader's error if and only if it fails, passed if and only if the answer is empty, else not stripped with the first four names |
| `PackageGate.VerdictOnWellFormed` | android/package.py:97-99 | the verdict on a well-formed library in terms of its section names, the names shown included |
| `PackageGate.CheckLibraries` | android/package.py:93-99 | it passes only if no library is missing, unreadable or unstripped; otherwise the first such library is reported with its verdict |
| `PackageGate.PassedMeansStripped` | android/package.py:98-99 | a well-formed library passes if and only if it has no symbol-table and no debug section |

## Left out

- Floating-point exception flags and hardware conversion instructions: the half code does not touch them.
- The union type punning: inputs and outputs are bit patterns. `sign << 31` on a promoted `uint16_t` overflows `int` in C; it is read as the 32-bit word every compiler produces.
- `lsb_pos` is kept in a word of the source format's width, where the C code uses 32 bits; it never exceeds the number of significand digits.
- NaN payloads are not compared across source formats: the ten leading fraction bits are kept from each.
- Installer paths: driver and megadriver names are plain file names of one directory, the relative link target is one value (the megadriver's own name, or a path that leaves the directory), and creating the directory, `chdir`, `DESTDIR`, printing and the check that the suffix occurs in the megadriver's path are not modelled.
- A link into another directory counts as arrived; what is found there is not part of this model.
- Permissions and concurrent changes of the directory: the only error of `unlink` modelled is a folder under that name.
- ELF files that number 0xff00 or more sections through the first section header: the reader sees a count of zero and fails with an index error, as its contract says.
- Zip writing, version lookup, git calls and the driver table of `android/package.py`: they would only add easy members.
- The API headers, `bin/drm-shim.py`, `bin/symbols-check.py`, `bin/gen_vs_module_defs.py` and `bin/git_sha1_gen.py`: declarations, tables and line rewriting.
- The graphics drivers, compilers and state trackers under `src/`: not part of this model.
