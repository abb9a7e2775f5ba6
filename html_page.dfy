/**
 * The part of `bundleHtml` that is logic rather than I/O or templating:
 * the generator string, the page metadata list, the choice of icon source,
 * and the cartridge fields handed to the page template.
 */
module HtmlPage {
  import opened Wrappers
  import opened Bytes
  import opened Request

  const ToolName: string := "WASM-4"
  const GeneratorName: string := "generator"
  const CreatedName: string := "created"

  /** `createGeneratorContent`: the tool name, a space, and the package version. */
  function GeneratorContent(version: string): (r: string)
    ensures |r| == |ToolName| + 1 + |version|
    ensures r[..|ToolName|] == ToolName && r[|ToolName|] == ' '
    ensures r[|ToolName| + 1..] == version
  {
    ToolName + " " + version
  }

  /** One `<meta name=… content=…>` entry of the page. */
  datatype Meta = Meta(name: string, content: string)

  /**
   * The metadata list: the generator entry first, then a `created` entry
   * carrying the clock reading `now` if and only if timestamps were asked for.
   */
  method CollectMetadata(version: string, timestamp: bool, now: string) returns (metadata: seq<Meta>)
    ensures |metadata| == if timestamp then 2 else 1
    ensures metadata[0] == Meta(GeneratorName, GeneratorContent(version))
    ensures timestamp <==> exists i | 0 <= i < |metadata| :: metadata[i].name == CreatedName
    ensures timestamp ==> metadata[1] == Meta(CreatedName, now)
  {
    metadata := [Meta(GeneratorName, GeneratorContent(version))];
    if timestamp {
      metadata := metadata + [Meta(CreatedName, now)];
      assert metadata[1].name == CreatedName;
    }
    assert GeneratorName[0] != CreatedName[0];
  }

  /**
   * Where the page's icon comes from: a data URL made from the icon file,
   * or else the icon URL option exactly as given (possibly absent).
   */
  datatype IconRef = DataUrlOf(iconFile: string) | AsGiven(iconUrl: Option<string>)

  /** An icon file, when given, overrides the icon URL. */
  function ChooseIcon(iconFile: Option<string>, iconUrl: Option<string>): (r: IconRef)
    ensures r.DataUrlOf? <==> Truthy(iconFile)
    ensures r.DataUrlOf? ==> r.iconFile == iconFile.value
    ensures r.AsGiven? ==> r.iconUrl == iconUrl
  {
    var icon := AsGiven(iconUrl);
    if Truthy(iconFile) then DataUrlOf(iconFile.value) else icon
  }

  /**
   * The values `bundleHtml` hands to the page template, apart from the
   * escaped runtime script and stylesheet: `cart` is what is z85-encoded
   * into `WASM4_CART` and `cartSize` is `WASM4_CART_SIZE`.
   */
  datatype PageBindings = PageBindings(
    title: seq<EncodedChar>,
    description: Option<string>,
    cart: seq<Byte>,
    cartSize: nat,
    icon: IconRef,
    metadata: seq<Meta>)

  /** Assembles the page bindings for one HTML bundle. */
  method BundleHtml(cart: seq<Byte>, opts: BundleOptions, version: string, now: string)
    returns (page: PageBindings)
    ensures page.title == opts.title && page.description == opts.description
    ensures page.cart == cart && page.cartSize == |cart|
    ensures page.icon == ChooseIcon(opts.iconFile, opts.iconUrl)
    ensures |page.metadata| == if opts.timestamp then 2 else 1
    ensures page.metadata[0] == Meta(GeneratorName, GeneratorContent(version))
    ensures opts.timestamp ==> page.metadata[1] == Meta(CreatedName, now)
  {
    var icon := ChooseIcon(opts.iconFile, opts.iconUrl);
    var metadata := CollectMetadata(version, opts.timestamp, now);
    page := PageBindings(opts.title, opts.description, cart, |cart|, icon, metadata);
  }
}
