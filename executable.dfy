/**
 * `bundleExecutable`: a native executable is the runtime image, then the
 * cartridge, then the footer; the file is made executable with mode 775.
 * `ReadBundle` is what the footer is for: a reader that finds the
 * cartridge from the end of the file.
 */
module Executable {
  import opened Wrappers
  import opened Bytes
  import opened Footer

  /** `chmod(outputFile, "775")`: octal 775, rwxrwxr-x. */
  const ExecutableMode: nat := 7 * 64 + 7 * 8 + 5

  /** The file `bundleExecutable` writes: its bytes and its permission bits. */
  datatype ExecutableFile = ExecutableFile(content: seq<Byte>, mode: nat)

  /** What a reader of a bundled executable recovers from it. */
  datatype Embedded = Embedded(titleField: seq<Byte>, cart: seq<Byte>)

  /**
   * Reads a bundled file from its end: the last 136 bytes are the footer;
   * with the right magic and a length L that fits, the cartridge is the L
   * bytes just before the footer. Anything else is not a bundle.
   */
  function ReadBundle(file: seq<Byte>): (r: Option<Embedded>)
    ensures r.Some? ==> |r.value.cart| + FooterSize <= |file|
    ensures r.Some? ==>
      var footerStart := |file| - FooterSize;
      file[footerStart - |r.value.cart|..footerStart] == r.value.cart
  {
    if |file| < FooterSize then None
    else
      var footerStart := |file| - FooterSize;
      var fields := DecodeFooter(file[footerStart..]);
      if fields.magic != Magic || fields.cartLength < 0 || fields.cartLength > footerStart then None
      else Some(Embedded(fields.titleField, file[footerStart - fields.cartLength..footerStart]))
  }

  /**
   * The output of `bundleExecutable`: `runtime-image ++ cartridge ++ footer`,
   * mode 775. Fails, writing nothing, when the cartridge is longer than
   * `writeInt32LE` accepts.
   */
  method BundleExecutable(source: seq<Byte>, cart: seq<Byte>, title: seq<EncodedChar>)
    returns (r: Result<ExecutableFile, BundleError>)
    ensures r.Success? <==> |cart| <= Int32Max
    ensures r.Failure? ==> r.error == CartLengthOutOfRange(|cart|)
    ensures r.Success? ==>
      && r.value.mode == ExecutableMode
      && r.value.content == source + cart + Layout(title, |cart|)
    ensures r.Success? ==>
      var out := r.value.content;
      && |out| == |source| + |cart| + FooterSize
      && out[..|source|] == source
      && out[|source|..|source| + |cart|] == cart
      && ReadBundle(out) == Some(Embedded(TitleField(title), cart))
  {
    var footer := BuildFooter(title, |cart|);
    if footer.Failure? {
      return Failure(footer.error);
    }
    var output := source + cart + footer.value;
    ReadBundleRoundTrip(source, cart, title);
    assert output[..|source|] == source;
    assert output[|source|..|source| + |cart|] == cart;
    r := Success(ExecutableFile(output, ExecutableMode));
  }

  /**
   * Whatever the runtime image, reading a bundled executable back yields the
   * title field and exactly the cartridge that was bundled.
   */
  lemma ReadBundleRoundTrip(source: seq<Byte>, cart: seq<Byte>, title: seq<EncodedChar>)
    requires |cart| <= Int32Max
    ensures ReadBundle(source + cart + Layout(title, |cart|)) == Some(Embedded(TitleField(title), cart))
  {
    var file := source + cart + Layout(title, |cart|);
    var footerStart := |file| - FooterSize;
    assert file[footerStart..] == Layout(title, |cart|);
    DecodeLayout(title, |cart|);
    assert file[footerStart - |cart|..footerStart] == cart;
  }

  /**
   * Conversely, a file the reader accepts splits into some image, the
   * cartridge it reports, and a footer that carries the magic and the
   * cartridge's exact length.
   */
  lemma ReadBundleSplits(file: seq<Byte>)
    requires ReadBundle(file).Some?
    ensures var e := ReadBundle(file).value;
            var footerStart := |file| - FooterSize;
            var footer := file[footerStart..];
            && file == file[..footerStart - |e.cart|] + e.cart + footer
            && DecodeFooter(footer) == FooterFields(Magic, e.titleField, |e.cart|)
  {
    var e := ReadBundle(file).value;
    var footerStart := |file| - FooterSize;
    assert file == file[..footerStart - |e.cart|] + file[footerStart - |e.cart|..footerStart] + file[footerStart..];
  }
}
