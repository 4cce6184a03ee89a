# execable.h command-line reconstruction, in Dafny

libcap's `execable.h` lets a shared library also run as a program. When
such a library is executed, `__so_start` has no `argc`/`argv` of its own.
Instead `__execable_parse_args` rebuilds them from `/proc/self/cmdline`.
That file holds the program's arguments, each followed by a NUL byte.

The function works in three steps:

- It reads the whole file into a heap buffer. The buffer starts with room
  for 32 bytes and doubles until a read comes back short. A NUL sentinel
  is then stored just past the data.
- A first pass counts the arguments: one, plus one for every NUL byte
  before the last byte.
- It allocates `argc + 1` zeroed pointer slots with `calloc`. A second
  pass walks the buffer with `strlen`, storing a pointer to each argument.

At the end of `SO_MAIN` the program's main has returned. If `argc != 0`,
`argv[0]` (the buffer) and `argv` are freed, and the process exits.

The model is split into these modules:

- `CString` defines bytes, NUL, the first-NUL search and `strlen`.
- `Cmdline` is the pure meaning of a command-line image. `Args` splits it
  at NUL bytes, `Join` writes arguments back with terminators, and lemmas
  relate the two.
- `ReadLoop` holds the buffer-doubling read loop, with `fread` modelled
  as a function.
- `Execable` holds the counting pass, the splitting pass, and
  `ParseArgs`, which combines them. `Parsed` states the outcome of
  `ParseArgs` in terms of `Args`.
- `SoMain` holds the final release and the empty-image leak.

The modelling choices are:

- **File.** The contents of `/proc/self/cmdline` are an
  `Option<seq<byte>>`, and `None` means `fopen` failed.
- **fread.** It copies `min(requested, remaining)` bytes.
- **Allocation.** A heap grants any allocation of at most `limit` bytes.
  A failed `realloc` or `calloc` ends in `exit(1)`, modelled as the
  outcome `Exited(1)`.
- **realloc.** It keeps the old bytes. The bytes it adds are arbitrary:
  they are chosen with `:|`, so no proof relies on their value.
- **Pointers.** A pointer into the buffer is an offset, `Into(k)`. The
  counting pass's pointer is an integer index, which starts at -2 for an
  empty buffer.
- **Pointer size.** `sizeof(char *)` is a parameter, `ptrSize`: 8 on x86-64, 4 on i386. It only sets the size of the `calloc` request for `argv`.

## Model

| member | source | states |
|---|---|---|
| CString.Strlen | libcap/execable.h:94 | `strlen(mem + offset)` on a buffer with a NUL at `size` stops at a NUL no later than `size`, and no byte it passes over is NUL |
| CString.StringAt | libcap/execable.h:94 | the C string at an offset is the bytes of the buffer from that offset up to, not including, the first NUL, which lies at or before the sentinel |
| CString.StringAtBefore | libcap/execable.h:76-79 | with the sentinel at `size`, the C string at an offset is the run of image bytes up to the image's next NUL, or up to the end of the image |
| ReadLoop.Fread | libcap/execable.h:75 | the read copies exactly `min(requested, remaining)` file bytes to the requested position and leaves every other byte of the buffer unchanged |
| ReadLoop.Capacity | libcap/execable.h:63-80 | the final capacity is the first of 32, 64, 128, ... that exceeds the file's length, so it is at most twice that length once the length is at least 32 |
| ReadLoop.ReadCmdline | libcap/execable.h:62-81 | the loop fails exactly when the final `realloc` exceeds the heap limit. Otherwise it ends with `size` equal to the file's length, the buffer holding the file's bytes followed by the NUL sentinel in `size + 1` bytes, and a zero-byte final read exactly when the file is empty or its length is a capacity reached by doubling |
| Execable.CountArgs | libcap/execable.h:83-85 | the backward scan from `mem + size - 2` yields one plus the number of NUL bytes before the last byte, and 1 for an empty buffer |
| Execable.CountMatchesSplit | libcap/execable.h:83-95 | the count equals the number of arguments the split finds, whether or not the last byte is NUL. The one exception is the empty image: it counts one argument but has none |
| Execable.SplitRound | libcap/execable.h:92-95 | one round of the splitting pass: from argument `argc`'s start, `offset += strlen + 1` lands on the next argument's start, no further than one past the sentinel, and that offset is still below `size` exactly when another argument follows |
| Execable.SplitArgs | libcap/execable.h:92-95 | the splitting pass stores exactly as many pointers as the image has arguments. Entry `i` points at argument `i`'s first byte and every later slot stays NULL, so all writes fit in the allocated slots |
| Execable.EntriesAreArgs | libcap/execable.h:76-95 | the C string at each stored offset is the corresponding argument of the image |
| Execable.ParseArgs | libcap/execable.h:56-99 | `fopen` failure gives `argc = 0` and `argv = NULL`. An allocation that does not fit gives `exit(1)`. Otherwise the result is the buffer holding the image plus its NUL, `argc` equal to the number of arguments, and `argv` laid out over `count + 1` slots |
| Execable.ParsedLayout | libcap/execable.h:86-95 | after a successful parse, `argc` is less than the number of slots and `argv[argc]` onwards is NULL. For a non-empty image, `argc` equals the count and `argv[0]` is the buffer start |
| Execable.ParsedStrings | libcap/execable.h:92-95 | after a successful parse, every `argv[i]` with `i < argc` points inside the image, at the C string equal to argument `i` |
| Cmdline.JoinArgs | libcap/execable.h:76-95 | writing the arguments back, each followed by NUL, reproduces the image up to the sentinel: the image itself, plus a NUL when its last byte was not one |
| Cmdline.ArgsJoin | libcap/execable.h:92-95 | splitting the joined form of NUL-free arguments gives back exactly those arguments |
| Cmdline.ArgsAtNulFree | libcap/execable.h:92-95 | no argument produced by the split contains a NUL byte |
| SoMain.EpilogueFreesEverything | libcap/execable.h:136-139 | `Release` models the guarded `free(argv[0]); free(argv)`: argc 0 frees nothing; otherwise `argv[0]` must be NULL or the buffer start (`Free` of any other pointer is invalid) and `argv` is freed. When the file could not be opened, or is non-empty, this release frees exactly the blocks the parser left allocated, through valid frees |
| SoMain.EmptyCmdlineLeaks | libcap/execable.h:83-98 | an empty image gives `argc = 0` with both the buffer and `argv` still allocated, and the release frees neither |
| SoMain.ParseArgsFixed | libcap/execable.h:136-139 | the parser with the empty-image case corrected. Every returned outcome is fully freed by the release, a missing or non-empty file parses as before (so `fopen` failure still gives `argc = 0`, `argv = NULL`), and an empty one returns `argc = 0`, `argv = NULL` |

## Left out

- `fopen` and `fclose` of `/proc/self/cmdline` are abstracted: the file is the input byte sequence, or None when it cannot be opened, and `fclose` has no effect to state. `fread` is modelled by `ReadLoop.Fread` as copying `min(requested, remaining)` bytes.
- Read errors are not modelled. A short `fread` is taken to mean end of file.
- `perror` messages are left out, because they are output only.
- Freeing the buffer before `exit(1)` is left out, because the process ends there.
- Allocator behaviour beyond a single size threshold is not modelled: a heap on which a smaller allocation fails after a larger one succeeded (say, the `calloc` for `argv` failing after the last `realloc` succeeded) is not represented.
- `size_t` and `int` overflow are not modelled: lengths and counts are unbounded integers. The argument count would have to exceed `INT_MAX` to matter.
- Pointer arithmetic before the buffer start is not modelled. The counting loop forms `mem - 1` on every non-empty input (its first value when `size` is 1, its last `p--` otherwise) and `mem - 2` when `size` is 0, so an out-of-range pointer is formed on every input. The pointer is an integer index here, so that undefined behaviour is not represented.
- These parts have no behaviour to state and are not modelled:
  - the `.interp` loader string;
  - the weak `_IO_stdin_used` constant;
  - `force_align_arg_pointer`;
  - the C++ linkage guards;
  - `EXECABLE_INITIALIZE`.
- `__execable_main` is not part of this model. The release assumes it leaves `argv[0]` and `argv` unchanged.
- The psx broadcast mechanism and its test are not part of this model. They are about signalling threads and per-thread kernel state.

## Findings

| source | as written | input that shows it | evidently intended | confidence | as-written member | corrected member |
|---|---|---|---|---|---|---|
| libcap/execable.h:83-98 | for an empty image, the count is 1, so the buffer and two `argv` slots are allocated. The split loop never runs, `argc` stays 0 and `argv` is non-NULL. The `SO_MAIN` release at lines 136-139 is guarded by `argc != 0`, so neither block is freed | an empty `/proc/self/cmdline` | an empty image gives `argc = 0` and `argv = NULL` with nothing left allocated, like the `fopen` failure case | low (the process exits right after, so the leak is short-lived); not executed | SoMain.EmptyCmdlineLeaks | SoMain.ParseArgsFixed |
