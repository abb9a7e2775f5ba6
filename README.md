# WASM-4 bundler core in Dafny

This project models the core of the WASM-4 command-line `bundle` command (`cli/lib/bundle.js`).
The command packages a compiled cartridge into a self-contained HTML page and into native executables.

- **Native executable layout** (`bundleExecutable`): the output is the native runtime image, then the raw cartridge, then a 136-byte FileFooter. The footer is built in a zero-filled buffer. It holds:
  - the magic 1414676803 as a little-endian int32 at offset 0 (the bytes spell "CART");
  - up to 127 UTF-8 bytes of the title at offset 4;
  - the cartridge length as a little-endian int32 at offset 132.

  The footer is built imperatively on a 136-element `array`, with methods modelling Node's `Buffer.alloc`, `writeInt32LE` and `write` (module `NodeBuffer`). It is proved equal to the `Footer.Layout` value.
  The footer exists so that a native runtime can find the cartridge by reading from the end of the file. `Executable.ReadBundle` is that reader. The model proves that reading a bundled file back gives the title field and exactly the bundled cartridge, whatever the runtime image.
- **Title truncation**: a title is modelled as the sequence of its characters' UTF-8 encodings. Node's `Buffer.write` writes only whole characters. So the footer holds the longest run of leading characters that fits in 127 bytes, never a partial character. Byte 131 is never written, so the 128-byte title field is always NUL-terminated.
- **Output dispatch** (`bundle`): the request is rejected with "You must specify one or more bundle outputs." when no output is set. Otherwise the model returns the plan of bundling steps, in the order html, windows, mac, linux. Each native step pairs its platform's runtime image with its output path. `Dispatch.Plan` follows the source's conditionals. It is proved equal to a reference definition that filters the fixed target order and maps each target to its step.
- **HTML page data** (`bundleHtml`): this covers the generator string `WASM-4 <version>` and the metadata list. The list holds the generator entry, plus a `created` entry exactly when timestamps are requested. It also covers the icon choice, where an icon file overrides an icon URL, and the cartridge size handed to the template.

Output paths are optional strings with JavaScript truthiness: an absent path and the empty string both count as "not requested". The package version and the clock reading are parameters.

Facts about the code that the model keeps:
- The title write's `length` argument is 127, so the title field holds at most 127 bytes.
- The length is written with `writeInt32LE`, which is signed and throws above 2^31 - 1. The model returns that case as the error `CartLengthOutOfRange` instead of a file. It is reachable only if reading the cartridge imposes no size limit of its own.
- The `chmod` mode `"775"` is rwxrwxr-x.
- The title is never cut inside a multi-byte character.
- `bundle` awaits its steps one after another.

## Model

| member | source | states |
|---|---|---|
| Bytes.ReadInt32LEOfInt32LE | cli/lib/bundle.js:95-97 | reading back the four little-endian bytes `writeInt32LE` stores gives the value written, for every int32 |
| Bytes.Int32LEOfReadInt32LE | cli/lib/bundle.js:95-97 | every four bytes are the encoding of exactly one int32, so the footer's integer fields are decoded without loss |
| Bytes.Int32LE | cli/lib/bundle.js:95-97 | the four bytes `writeInt32LE` stores are the base-256 digits, least significant first, of the value taken modulo 2^32 |
| Bytes.FittingChars | cli/lib/bundle.js:96 | the number of whole characters written never exceeds the number of characters in the title |
| Bytes.FittingCharsFit | cli/lib/bundle.js:96 | the characters written fit in the capacity, and one more character would not fit |
| Bytes.FittingCharsAll | cli/lib/bundle.js:96 | a title whose bytes fit in the capacity is written entirely |
| Bytes.FittingCharsPrefix | cli/lib/bundle.js:96 | the bytes written are a prefix of the title's UTF-8 bytes |
| NodeBuffer.Alloc | cli/lib/bundle.js:94 | `Buffer.alloc(136)` gives a fresh buffer of that size, all zero |
| NodeBuffer.WriteInt32LE | cli/lib/bundle.js:95-97 | an int32 value is stored little-endian at the offset and nothing else changes; a value outside int32 leaves the buffer unchanged and reports failure |
| NodeBuffer.Write | cli/lib/bundle.js:96 | for a length no larger than the buffer, the whole leading characters that fit in min(length, remaining space) are written at the offset, the count written is returned, and the rest of the buffer is unchanged |
| Footer.TitleBytes | cli/lib/bundle.js:96 | the footer's title bytes are at most 127 and are a prefix of the title's UTF-8 bytes |
| Footer.TitleBytesTruncation | cli/lib/bundle.js:96 | a title of at most 127 bytes is kept whole; a longer one ends just before the first character that would cross the 127th byte |
| Footer.Layout | cli/lib/bundle.js:94-97 | the footer is exactly 136 bytes |
| Footer.LayoutFields | cli/lib/bundle.js:94-97 | the footer value holds "CART" at bytes 0-3, the title bytes from offset 4, zeros from there through byte 131, and the length's little-endian int32 at bytes 132-135 |
| Footer.BuildFooter | cli/lib/bundle.js:93-97 | the footer succeeds exactly when the cartridge length fits an int32 and otherwise fails with that length. On success it equals the layout: bytes 0-3 are 43 41 52 54 ("CART"), the title bytes start at offset 4, every byte after them up to 131 is 0 (byte 131 included), and bytes 132-135 are the length's little-endian int32 |
| Footer.DecodeFooter | cli/lib/bundle.js:93-97 | the decoded title field is the 128 bytes between the magic and the length |
| Footer.DecodeLayout | cli/lib/bundle.js:93-97 | decoding a written footer gives the magic, the zero-padded title field and the exact cartridge length |
| Footer.MagicSpellsCart | cli/lib/bundle.js:95 | the magic's little-endian bytes are the ASCII letters C, A, R, T |
| Footer.TitleField | cli/lib/bundle.js:94-96 | footer bytes 4-131 are the title bytes followed by zeros, so the field's last byte (byte 131) is 0 for every title |
| Footer.TitleFieldReadsBack | cli/lib/bundle.js:96-97 | for a title without U+0000, reading the field up to its first NUL gives exactly the written title bytes |
| Footer.UntilNul | cli/lib/bundle.js:96 | reading a field up to its first NUL gives the prefix of the field that contains no zero byte and stops at the first zero byte or the field's end |
| Executable.ReadBundle | cli/lib/bundle.js:93 | what the reader reports as the cartridge is a slice of the file ending where the 136-byte footer begins |
| Executable.BundleExecutable | cli/lib/bundle.js:87-103 | the output is image ++ cartridge ++ footer with mode 775. Its length is image + cartridge + 136, its prefix is the image, and the cartridge starts right after the image. Reading it back yields the cartridge. It fails exactly when the cartridge length exceeds int32 |
| Executable.ReadBundleRoundTrip | cli/lib/bundle.js:93-99 | for any runtime image, reading the bundled file from its end gives the title field and exactly the bundled cartridge |
| Executable.ReadBundleSplits | cli/lib/bundle.js:93-99 | a file the reader accepts is an image, then the reported cartridge, then a footer carrying the magic and that cartridge's exact length |
| HtmlPage.GeneratorContent | cli/lib/bundle.js:13-15 | the generator content is "WASM-4", a space, then exactly the version |
| HtmlPage.CollectMetadata | cli/lib/bundle.js:58-65 | the list has the generator entry first. A `created` entry carrying the clock reading is present if and only if timestamps are on. The length is 2 with timestamps and 1 without |
| HtmlPage.ChooseIcon | cli/lib/bundle.js:37-41 | the icon is a data URL of the icon file exactly when an icon file is given, and otherwise the icon URL option as given |
| HtmlPage.BundleHtml | cli/lib/bundle.js:37-80 | the template receives the title, the description, the cartridge and its exact size, the chosen icon and the metadata list |
| Dispatch.Plan | cli/lib/bundle.js:108-127 | `bundle` fails with "You must specify one or more bundle outputs." exactly when none of html/windows/mac/linux is set, and it plans no step then. Otherwise it plans one to four steps |
| Dispatch.NativeImage | cli/lib/bundle.js:119-125 | each native target's runtime image is a `wasm4-` file directly inside the natives directory |
| Dispatch.RequestedExact | cli/lib/bundle.js:113-126 | a target is requested exactly when it is in the target list and its output option is truthy |
| Dispatch.RequestedOrdered | cli/lib/bundle.js:113-126 | the requested targets keep the order of the target list |
| Dispatch.PlanFollowsRequest | cli/lib/bundle.js:108-127 | the plan equals the reference definition: an error when nothing is requested, otherwise one step per requested target in order |
| Dispatch.PlanSteps | cli/lib/bundle.js:113-126 | on success there is one step per requested target and exactly the truthy targets are requested, in the order html, windows, mac, linux. Native steps use wasm4-windows.exe, wasm4-mac or wasm4-linux from the natives directory, with that platform's output path |

## Left out

- File I/O is not modelled. This covers reading the cartridge, runtime assets and template, creating the HTML file's directory, and writing the outputs. The runtime image and cartridge are input byte sequences, and the written file is a returned value. `chmod` is reduced to the mode carried with the executable's bytes.
- Read and write failures are not modelled. Nor is the effect of a rejected step in `bundle`: earlier outputs stay written and later steps are not run.
- The z85 encoder, the JS/CSS escapers and the JSON-for-script stringifier are not part of this model. Their source is in modules not given here. The page data carries the raw cartridge that is z85-encoded and its size.
- The icon data-URL helper is not part of this model. An icon file appears only as the path the data URL is made from.
- Handlebars template compilation and rendering are not modelled. `HtmlPage.BundleHtml` stops at the values handed to the template, so the rendered HTML text is not modelled.
- The clock (`new Date().toISOString()`) and the package version are parameters. Console logging and `Promise.all` concurrency are left out.
- Conversion of the title string to UTF-8 is not modelled. This includes Node's replacement of unpaired surrogates by U+FFFD. The title is taken as its characters' encodings.
- A title that is not a string, which makes `Buffer.write` throw, is not modelled.
- The native runtime that reads the footer is not part of this model. `Executable.ReadBundle` is defined from the footer's layout, the way the comment at the footer describes its use.
