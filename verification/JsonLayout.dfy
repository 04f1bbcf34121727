/** How the writers lay out lists of items. */
module JsonLayout {
  import opened Words
  import opened JsonEvents
  import opened JsonReader
  import opened JsonString

  datatype Style = Compact | Pretty(indentChar: byte, indentCharCount: nat)

  const LINE_FEED: byte := 0x0A
  const SPACE: byte := 0x20

  function Copies(c: byte, n: nat): (b: Bytes)
    ensures |b| == n && forall i :: 0 <= i < n ==> b[i] == c
  {
    if n == 0 then [] else Copies(c, n - 1) + [c]
  }

  /** The line break and indentation before an item or a closing bracket. */
  function Break(style: Style, depth: nat): Bytes {
    match style
    case Compact => []
    case Pretty(c, n) => [LINE_FEED] + Copies(c, depth * n)
  }

  function Gap(style: Style): Bytes {
    if style.Compact? then [COLON] else [COLON, SPACE]
  }

  function Comma(count: nat): Bytes {
    if count > 0 then [COMMA] else []
  }

  function Items(style: Style, depth: nat, texts: seq<Bytes>): Bytes {
    if texts == [] then []
    else
      var n := |texts| - 1;
      Items(style, depth, texts[..n]) + Comma(n) + Break(style, depth) + texts[n]
  }

  function Closing(style: Style, depth: nat, count: nat): Bytes {
    if count == 0 then [] else Break(style, depth)
  }

  /** A bracketed list whose items are one level deeper. */
  function Listing(style: Style, depth: nat, open: byte, texts: seq<Bytes>, close: byte): Bytes {
    [open] + Items(style, depth + 1, texts) + Closing(style, depth, |texts|) + [close]
  }

  // ----- White space -----

  /** `SetIndent` takes white space only. */
  predicate Spaced(style: Style) {
    style.Pretty? ==> style.indentChar in {0x20, 0x09, 0x0A, 0x0D}
  }

  predicate Digit(c: byte) {
    0x30 <= c <= 0x39
  }

  predicate RealMark(c: byte) {
    c == 0x2E || c == 0x65 || c == 0x45
  }

  /** A number that ends here does not go on. */
  predicate Delimited(text: Bytes, p: nat) {
    !Digit(At(text, p)) && !RealMark(At(text, p))
  }
}
