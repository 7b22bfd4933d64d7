# vmd-converter in Dafny

A verified model of the core of vmd-converter, a small C tool that turns a Wavefront OBJ
model into a VMD mesh. A VMD mesh has:

- an attribute mask (normal, color, texture coordinate);
- a vertex count and an index count;
- one interleaved buffer of vertex floats;
- one flat buffer of `uint32_t` indices.

The model covers five parts of the tool:

- **`vmd_data.dfy`, module `VmdData`**: the `VmdData` record, the mask bits, and the
  record size (`vmdVertexComponents`, `vmdVertexSize`).
- **`vmd_binary.dfy`, module `VmdBinary`**: the binary file written by `saveVmd` and read
  by `loadVmd`.
  - `saveVmd` is a pure encoder to bytes.
  - `loadVmd` is an imperative cursor decoder, proved equal to a decoding function.
  - The round trip is proved in both directions.
  - A buffer of at least nine bytes is accepted exactly when its length is the one its
    header announces.
- **`vmd_text.dfy`, module `VmdText`**: the text format read by `loadVmdt`.
  - It reads a flag line of `n`, `c` and `t`.
  - It counts the vertex lines up to the first empty line, then the index lines, three
    indices per line.
  - Numbers are scanned with `strtof` and `strtoul` from the start of each block.
  - The imperative loops (`memchr`, the counting loops, the number loops) are proved
    equal to recursive specification functions.
  - Lemmas state what those functions count and where they stop.
- **`obj_loader.dfy`, module `ObjLoader`**: the deduplication loop of `loadObj`.
  - It takes the parser's separate position, normal and texture-coordinate streams and
    builds one record per distinct corner key `(v, vn, vt)`.
  - It keeps a running componentwise maximum of the stored keys, and skips the backward
    scan for a key that is not dominated by it.
  - The loop (`LoadObj` and its helper methods over arrays) is proved against `Run`.
    `Run` is the loop as a function from corner keys to a loop state.
  - `Run` in turn is proved equal to an exact interning of the keys that has no
    shortcut (`RunIsReference`). So the maximum shortcut never misses a stored key, and
    deduplication is exact.
- **`file_names.dfy`, module `FileNames`**: `getFileExt` and the output name that `main`
  derives from the base name of the input path.

Floating-point values are 32-bit bit patterns (`Float32`); no float arithmetic is done.
The negation of a float is defined as a sign-bit flip (`Neg`). Two operations are
parameters of the model:

- `1.0f - v` is the parameter `oneMinus`;
- `strtof`'s conversion of a number's text to a binary32 value is the parameter `toFloat`.

`strtof`'s scanning of the number text is modelled concretely.

Multi-byte values in the binary format are little-endian, which is what the pointer
casts and `fwrite` calls produce on a little-endian machine. The model also assumes an
LP64 platform, where `size_t` and `unsigned long` are 64 bits wide (see "## Left out").

## Model

| member | source | states |
|---|---|---|
| VmdData.VertexComponents | vmd_loader.h:25-32 | A record has 3 to 11 floats. The count is a multiple of 3 exactly when the texture-coordinate bit is clear. |
| VmdData.VertexSize | vmd_loader.h:34-37 | The record size in bytes lies between 12 and 44 and is a multiple of 4. |
| VmdData.ComponentsIgnoreHighBits | vmd_loader.h:25-32 | Two masks that agree on their three low bits have the same record size; the other bits are ignored. |
| VmdData.LowBits | vmd_loader.h:28-30 | Each flag test reads exactly one of the three low bits of the mask. |
| VmdData.SetBit | vmd_loader.h:79-83 | `mask \|= bit` sets the chosen flag, keeps the other two flags, and keeps the bits above them. |
| VmdBinary.LE32 | vmd_loader.h:121-123 | A u32 is written as exactly four bytes. |
| VmdBinary.U32Of | vmd_loader.h:50-53 | The u32 read from four bytes has the first byte as its lowest byte and the last byte as its highest. |
| VmdBinary.Words | vmd_loader.h:124-125 | `fwrite` of `n` u32 values writes exactly `4·n` bytes. |
| VmdBinary.WordsAt | vmd_loader.h:65-68 | The `memcpy` from a byte block gives exactly `n` values. |
| VmdBinary.U32OfLE32 | vmd_loader.h:121-123 | Reading back the four little-endian bytes of a u32 gives the u32. |
| VmdBinary.LE32U32Of | vmd_loader.h:50-53 | Re-encoding the u32 read from four bytes gives the same four bytes. |
| VmdBinary.WordsAtWords | vmd_loader.h:65-68 | Copying values out of a byte block written by `fwrite` gives back every value written. |
| VmdBinary.WordsWordsAt | vmd_loader.h:124-125 | Writing out the values copied from a byte block gives back the block. |
| VmdBinary.SaveVmd | vmd_loader.h:117-128 | The file is the mask byte, then both counts, then the vertex floats, then the indices. Its length is 9 + vertexCount·vertexSize + indexCount·4, and byte 0 is the mask. |
| VmdBinary.DecodeVmd | vmd_loader.h:45-69 | A buffer shorter than the header is an error. A longer buffer is accepted exactly when its length is 9 + vertexCount·vertexSize + indexCount·4 for the counts and mask in its header, and then it decodes to a well-formed mesh whose counts account for the whole length. |
| VmdBinary.LoadVmd | vmd_loader.h:45-69 | The cursor decoder returns exactly what `DecodeVmd` gives. That covers the header fields at offsets 0, 1 and 5, the length check before any allocation, then the vertex block and the index block. |
| VmdBinary.CopyWords | vmd_loader.h:62-68 | The `memcpy` fills a fresh buffer with the `n` little-endian u32 values from the offset on. |
| VmdBinary.LoadSaveRoundTrip | vmd_loader.h:117-128 | Decoding the bytes `saveVmd` writes for a well-formed mesh gives back its mask, both counts, every vertex float and every index. |
| VmdBinary.BlocksOfSaved | vmd_loader.h:124-125 | In the encoded bytes, the vertex block reads back as the vertices and the index block as the indices. |
| VmdBinary.SaveLoadRoundTrip | vmd_loader.h:45-69 | Every buffer `loadVmd` accepts is exactly the encoding of the mesh it decodes to. |
| VmdBinary.BlocksOfDecoded | vmd_loader.h:62-68 | In an accepted buffer, the vertex block and the index block are the encodings of the decoded vertices and indices. |
| VmdBinary.VertexBlockOfDecoded | vmd_loader.h:65-66 | In an accepted buffer, the vertex block is the encoding of the decoded vertices. |
| VmdBinary.HeaderOfDecoded | vmd_loader.h:47-54 | The first nine bytes of an accepted buffer are the encoding of the decoded mask and counts. |
| VmdBinary.RejectsOffByOneLength | vmd_loader.h:56-60 | A valid encoding with its last byte removed, or with one byte appended, is rejected. |
| VmdText.FlagMask | vmd_loader.h:77-84 | The flag line never clears a flag that was already set, and never changes the bits above the three flags. |
| VmdText.FlagMaskSpec | vmd_loader.h:77-84 | After the flag line, a bit is set exactly when it was set before or its letter (`n`, `c`, `t`) occurs in the line. The bits above the flags do not change. |
| VmdText.NextNewline | vmd_loader.h:73-75 | `memchr` finds the first newline from a position on, or reports that there is none. |
| VmdText.VertexLines | vmd_loader.h:86-93 | Counting vertex lines either fails or stops at a separator inside the buffer. |
| VmdText.VertexLinesSeparator | vmd_loader.h:89-93 | The separator is a newline at the start of a line, and no earlier line of the vertex block is empty (the converse is `VertexLinesAccepts`). |
| VmdText.VertexLinesAccepts | vmd_loader.h:89-93 | Counting vertex lines succeeds exactly when some line from the start of the vertex block on is empty. |
| VmdText.VertexLinesCount | vmd_loader.h:89-95 | The vertex count is the number of newlines between the flag line and the separator. |
| VmdText.IndexLines | vmd_loader.h:104-108 | Counting index lines either fails or stops inside the buffer. |
| VmdText.IndexLinesCount | vmd_loader.h:104-110 | The counted part ends at a line start and leaves at most the last byte. The count is the number of newlines in it. |
| VmdText.IndexLinesFail | vmd_loader.h:105-106 | Counting index lines fails exactly when some line of two or more bytes has no newline up to the end of the buffer. |
| VmdText.ScanFloat | vmd_loader.h:98-99 | `strtof` moves the cursor forward. When it reads no number the value is 0 and the cursor stays. |
| VmdText.ScanFloatDigits | vmd_loader.h:98-99 | A digit run ended by white space or by the end of the buffer is read whole. |
| VmdText.ScanUnsigned | vmd_loader.h:113-114 | `strtoul` moves the cursor forward. When it reads no digits the value is 0 and the cursor stays. |
| VmdText.ScanUnsignedDecimal | vmd_loader.h:113-114 | `strtoul` reads back the decimal text of any u32 index and stops right after it. |
| VmdText.ScanFloats | vmd_loader.h:98-99 | `n` successive `strtof` calls give `n` values and a cursor inside the buffer. |
| VmdText.ScanIndices | vmd_loader.h:113-114 | `n` successive `strtoul` calls give `n` values and a cursor inside the buffer. |
| VmdText.DecodeVmdt | vmd_loader.h:71-115 | An accepted text buffer gives a well-formed mesh with an index count divisible by 3. A buffer with no newline is an error. |
| VmdText.DecodeVertexBlock | vmd_loader.h:86-99 | The vertex block and what follows it give a well-formed mesh with the flag-line mask and an index count divisible by 3. |
| VmdText.DecodeIndexBlock | vmd_loader.h:101-114 | The index block keeps the mask, the vertex count and the vertices, and adds a multiple of 3 indices. |
| VmdText.DecodedFlagLine | vmd_loader.h:73-84 | In an accepted buffer the flag line is everything before the first newline. Only its letters add mask bits, and the rest is decoded with that mask. |
| VmdText.DecodedVertexBlock | vmd_loader.h:86-99 | The vertex count is the number of lines up to the first empty line. Exactly vertexCount·components floats are read from the start of the block. |
| VmdText.DecodedIndexBlock | vmd_loader.h:101-114 | The index count is 3 times the number of lines after the separator. Exactly that many integers are read from the separator on. |
| VmdText.LoadVmdt | vmd_loader.h:71-115 | The imperative loader returns exactly `DecodeVmdt`. |
| VmdText.LoadVertexBlock | vmd_loader.h:86-99 | The line count and the `strtof` loop return exactly `DecodeVertexBlock`. |
| VmdText.LoadIndexBlock | vmd_loader.h:101-114 | The line count and the `strtoul` loop return exactly `DecodeIndexBlock`. |
| VmdText.FindNewline | vmd_loader.h:73-75 | The search loop finds a newline exactly when `NextNewline` does, at the same position. |
| VmdText.ReadFlags | vmd_loader.h:77-84 | The loop over the flag line computes `FlagMask`. |
| VmdText.CountVertexLines | vmd_loader.h:89-93 | The counting loop gives exactly `VertexLines`. |
| VmdText.CountIndexLines | vmd_loader.h:104-108 | The counting loop gives exactly `IndexLines`. |
| VmdText.ReadFloats | vmd_loader.h:98-99 | The fresh vertex buffer and the final cursor are those of `ScanFloats`. |
| VmdText.ReadIndices | vmd_loader.h:113-114 | The fresh index buffer and the final cursor are those of `ScanIndices`. |
| ObjLoader.Corners | main.c:107-110 | The loop visits `3·length` corner keys, the first ones of the face array. |
| ObjLoader.ObjMask | main.c:76-80 | The normal bit is set exactly when the file has normals, and the texture-coordinate bit exactly when it has texture coordinates. The color bit is never set. |
| ObjLoader.Neg | main.c:136 | Negation flips the sign bit only: the result differs from the input and agrees with it on the other 31 bits. |
| ObjLoader.Record | main.c:133-151 | A new record has exactly `VertexComponents(mask)` floats. |
| ObjLoader.PositionOf | main.c:136-138 | The position part of a record has three floats. |
| ObjLoader.NormalOf | main.c:142-144 | The normal part of a record has three floats. |
| ObjLoader.TexcoordOf | main.c:149-150 | The texture-coordinate part of a record has two floats. |
| ObjLoader.Layout | main.c:133-134 | Records of `n` keys fill exactly `n·components` floats. |
| ObjLoader.LayoutAt | main.c:133-134 | The record of the key stored at slot `q` occupies floats `q·c` up to `(q+1)·c`, where `c` is the number of floats per record. |
| ObjLoader.Intern | main.c:112-157 | The reference interning gives one index per corner and stores at most one key per corner. |
| ObjLoader.InternSpec | main.c:114-157 | In the reference interning, every corner refers to a stored copy of its own key. The stored keys are pairwise distinct, and a key is stored exactly when it occurs among the corners. |
| ObjLoader.InternCountsDistinct | main.c:133-157 | The number of stored keys is the number of distinct corner keys. |
| ObjLoader.MaxKeyBounds | main.c:124-131 | The running maximum dominates every stored key. Each of its components is 0 or that component of some stored key. |
| ObjLoader.SkipIsSafe | main.c:114 | A key not dominated by the running maximum is not stored, so skipping the scan never misses a match. |
| ObjLoader.LastIndexOf | main.c:115-123 | The backward scan stops at a copy of the key with no later copy. |
| ObjLoader.Raise | main.c:124-131 | The raised maximum dominates both the old maximum and the key. It is unchanged when the key was already dominated. |
| ObjLoader.Visit | main.c:112-158 | One corner fails only when its attributes are out of range. Otherwise it adds one index, stores at most one key, the new index names a stored copy of the corner's key, and the new maximum dominates that key. |
| ObjLoader.Run | main.c:107-161 | A loop over `n` corners that succeeds has given out exactly `n` indices. |
| ObjLoader.WalkLength | main.c:107-161 | Walking from corner `from` to corner `n` without failing adds exactly `n - from` indices; a walk started in a failed state never succeeds. |
| ObjLoader.WalkSnoc | main.c:107-110 | Walking one corner further is one more `Visit`, unless the walk has already failed. |
| ObjLoader.RunStep | main.c:107-110 | Running the loop one corner further is one more `Visit`, unless the loop has already failed. |
| ObjLoader.RunErrSticky | main.c:107-110 | Once a corner fails, the loop over all corners fails. |
| ObjLoader.RunIsReference | main.c:107-160 | The loop fails exactly when some corner's attributes are out of range. Otherwise it stores exactly the interned keys and gives every corner the index of its key. It writes the records of the stored keys in order and keeps the componentwise maximum of the stored keys. |
| ObjLoader.VisitIsReference | main.c:108-158 | One corner keeps the loop state equal to the reference state, and the corner succeeds exactly when its attributes are in range. |
| ObjLoader.RunMesh | main.c:107-160 | The loop over all corners fails exactly when an attribute is out of range, and otherwise ends in the state of `ObjMesh`. |
| ObjLoader.ObjMesh | main.c:61-170 | The converted mesh is well formed, has the OBJ mask, three indices per face and no more vertices than indices. |
| ObjLoader.ObjMeshCounts | main.c:156-159 | The converted mesh is well formed. It has one index per corner, `vertexCount ≤ indexCount ≤ num_faces`, and one record per distinct key. |
| ObjLoader.ObjMeshIndices | main.c:114-156 | Each index is below `vertexCount`, and the record it names is the record of the corner's own key. |
| ObjLoader.LoadObj | main.c:61-170 | The converter succeeds exactly when the corner count fits a u32 and every attribute index is in range, and then returns `ObjMesh`. |
| ObjLoader.ConvertFace | main.c:108-159 | The inner loop over a face advances the loop state by three corners and keeps the arrays equal to it, or it fails only when the loop over all corners fails. |
| ObjLoader.ConvertCorner | main.c:109-159 | One corner advances the loop state by one and keeps the arrays equal to it, or it fails only when the loop over all corners fails. |
| ObjLoader.InternCorner | main.c:112-157 | The dedup step (the maximum test, the scan or the raise, then the append) succeeds exactly when `Visit` does, and leaves the arrays holding `Visit`'s state. |
| ObjLoader.ReuseStored | main.c:114-123 | The scan finds the key exactly when it is stored, writes the index of its last copy, and otherwise changes nothing. |
| ObjLoader.AppendKey | main.c:133-157 | A new key's record, its slot in `objVerts` and its index `vertexCount` are appended, and the rest of the arrays is kept. |
| ObjLoader.FindStored | main.c:115-123 | The backward scan finds the key exactly when it is among the first `count` slots, at its last copy. |
| ObjLoader.WriteRecord | main.c:133-151 | The buffer changes only at floats `offset` up to `offset + components`, which receive the record. |
| ObjLoader.WritePosition | main.c:136-139 | Floats `offset` up to `offset + 3` receive `(-x, z, y)`, and nothing else changes. |
| ObjLoader.WriteNormal | main.c:141-146 | Floats `offset` up to `offset + 3` receive `(-nx, nz, ny)`, and nothing else changes. |
| ObjLoader.WriteTexcoord | main.c:148-151 | Floats `offset` and `offset + 1` receive `(u, 1 - v)`, and nothing else changes. |
| FileNames.FileExt | main.c:53-59 | The extension is a suffix of the name and contains no dot. |
| FileNames.LastIndex | main.c:55 | `strrchr` finds the last copy of a character, or reports that there is none. |
| FileNames.ExtStart | main.c:53-59 | When `getFileExt` points into the name, it points just after a dot that is not the first character. |
| FileNames.FileExtSpec | main.c:53-59 | The extension is `""` when no dot follows the first character. Otherwise the name is a non-empty stem, a dot and the extension, and the extension holds no dot. |
| FileNames.Basename | main.c:196 | `basename` is `.` for the empty path and `/` for a path of slashes only. Otherwise it is the slash-free tail of the path with its trailing slashes removed, preceded there by a slash or by nothing. |
| FileNames.TrimSlashes | main.c:196 | Removing trailing slashes gives a prefix of the path that does not end in a slash, and every byte removed is a slash. |
| FileNames.OutputName | main.c:196-202 | When the source's derivation is defined, the output name is the base name up to a dot that is not the first character, followed by `.vmd`. |
| FileNames.VmdName | main.c:196-202 | The corrected output name exists exactly when the base name has a dot. It is then the base name up to its last dot, followed by `.vmd`. |
| FileNames.ConvertedName | main.c:184-202 | Only a path whose extension is `obj` gets an output name, and that name ends in `.vmd`. |
| FileNames.ObjPath | main.c:184-186 | A path whose extension is `obj` ends in `.obj`. |
| FileNames.BasenameKeepsSuffix | main.c:196 | A slash-free suffix of a path is also a suffix of its base name. |
| FileNames.BasenameOfObj | main.c:184-196 | The base name of a path accepted as OBJ ends in `.obj`. |
| FileNames.OutputNameSpec | main.c:196-202 | The output name is defined exactly when `getFileExt` points into the base name. It is then the stem before the last dot followed by `.vmd`. |
| FileNames.ConvertedNameSpec | main.c:184-202 | For every path the program accepts as OBJ, the base name is a stem followed by `.obj`, and the output name is that stem followed by `.vmd`. |
| FileNames.LastIndexIs | main.c:55 | `strrchr` returns a copy of the character that no later copy follows. |
| FileNames.OutputNameAgrees | main.c:196-202 | Wherever the source's derivation is defined, the corrected derivation gives the same name. |
| FileNames.LeadingDotBasename | main.c:196-202 | `models/.obj` is accepted as OBJ, yet its base name `.obj` makes the source's output name undefined; the corrected derivation gives `.vmd`. |

## Left out

- File and process I/O are not part of this model: `getFileData`, the `fopen`/`fwrite`/`fclose` calls of `saveVmd` (only the bytes written are modelled), `printf`, `fprintf` and `exit`. Exits and early returns are `Err` results.
- `tinyobj_parse_obj` and the tinyobj free functions are not part of this model. The converter takes the parser's output as its input `Attrib`.
- LoadObj: requires the shape's faces to be triangles. The source parses with `TINYOBJ_FLAG_TRIANGULATE` and indexes the corners as `3 * i + j`.
- Floating-point arithmetic is not modelled. A float is its bit pattern, the negation is a sign-bit flip, `1.0f - v` is the parameter `oneMinus`, and `strtof`'s decimal-to-binary32 rounding is the parameter `toFloat`.
- ScanFloat: `strtof`'s hexadecimal, `inf` and `nan` forms and locale-specific decimal points are not modelled; only decimal numbers with an optional fraction and exponent are read.
- ScanFloat: the source lets `strtof` read past the end of the buffer; here the buffer ends at its last byte.
- ScanUnsigned: the source lets `strtoul` read past the end of the buffer; here the buffer ends at its last byte.
- ScanUnsigned: assumes a 64-bit `unsigned long`, as on LP64 platforms: a number of 2^64 or more saturates to 2^64 - 1 before it is cut to the u32 index. With a 32-bit `unsigned long` it would saturate at 2^32 - 1.
- DecodeVmd: assumes a 64-bit `size_t`, as on LP64 platforms: the expected length `9 + vertexCount·vertexSize + indexCount·4` is computed without wrap-around. With a 32-bit `size_t` that sum could wrap and accept a buffer of the wrong length.
- `malloc`, the `realloc` shrink of the vertex buffer and `vmdFree` are not modelled as allocation. The model allocates the same upper-bound arrays, and the final mesh keeps the first `vertexCount·components` floats, which is what the `realloc` leaves. The index buffer is returned cut to `indexCount`.
- vmd_format.h is not part of this model; it repeats the record and the mask constants.
- Undefined behaviour becomes an explicit error:
  - `loadVmd` on fewer than 9 bytes gives `HeaderTruncated`;
  - `loadVmdt` reading past the buffer for a missing empty line gives `MissingSeparator`;
  - `memchr` returning NULL for a vertex or index line without a newline gives `UnterminatedVertexLine` or `UnterminatedIndexLine`;
  - an OBJ attribute index outside its array gives `AttributeIndexOutOfRange`.
- A line count or corner count of 2^32 or more, which the source silently truncates into the u32 counters, gives `CountOverflow`.
- DecodeVmdt: the mask the source ORs into is never cleared first, so the prior mask is a parameter `mask0`; with no newline the source returns leaving the record untouched, which is `Err(NoFlagLine)` here.
- ConvertFace: with ConvertCorner and InternCorner it splits the body of the inner loop into methods, which perform the same reads and writes in the same order.
- The dispatch on the extension in `main` is modelled only as far as the output name (`ConvertedName`); the call of `saveVmd` with that name is I/O.
- Basename: models POSIX `basename` from libgen.h on its own input; it does not model that the function may modify the string it is given.
- Two behaviours of the code that a reader might not expect are modelled as the code has them:
  - mask `0b101` is a normal plus a texture coordinate, 8 floats per record, because each flag bit is tested on its own;
  - every index line after the separator is counted, empty ones included, except a last line of a single byte.

## Findings

| source | as written | input that shows it | evidently intended | confidence | as-written member | corrected member |
|---|---|---|---|---|---|---|
| main.c:196-202 | The output name is `basename` up to `getFileExt(basename) - 1`. When the base name's only dot is its first character, `getFileExt` returns the literal `""`, and `extLoc - filename` subtracts pointers into two different objects. | `models/.obj`: `getFileExt` of the path is `obj`, so the file is converted, but its base name `.obj` has its only dot at position 0 | The text before the last dot of the base name followed by `.vmd`, here `.vmd` | not executed; high that the pointer difference is undefined, medium on the intended name | FileNames.OutputName (undefined case shown by FileNames.LeadingDotBasename) | FileNames.VmdName (FileNames.ConvertedNameSpec) |
