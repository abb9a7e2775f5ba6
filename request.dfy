/** The options object `bundle` receives from the command line. */
module Request {
  import opened Wrappers
  import opened Bytes

  /**
   * One bundle request: an output path per target (absent when not
   * requested), the title (as its characters' UTF-8 encodings), the
   * optional description and icon sources, and the timestamp flag.
   */
  datatype BundleOptions = BundleOptions(
    html: Option<string>,
    windows: Option<string>,
    mac: Option<string>,
    linux: Option<string>,
    title: seq<EncodedChar>,
    description: Option<string>,
    iconFile: Option<string>,
    iconUrl: Option<string>,
    timestamp: bool)

  /** JavaScript truthiness of an optional string: absent and "" are false. */
  predicate Truthy(o: Option<string>) {
    o.Some? && o.value != ""
  }
}
