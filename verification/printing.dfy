/** The bodies of `print_text` and `print_image`, which printer.py (77-128) and main.py
    (73-132) spell out with the same steps (main.py awaits each write and takes
    `applyDither` from its own module); both printer classes call these. Pillow's part is
    not modelled: the image handed to `PrintImageOn` is the one after `convert("RGB")`
    and the resize, and the rendering of the text is the function `ink`, which gives
    the pixel that drawing the content in the chosen font leaves at row y, column x of
    a white canvas. */
module Printing {
  import opened HexText
  import opened Raster
  import opened BitPack
  import opened DitherPasses
  import opened Transport
  import opened Framing
  import opened TextWrap

  /** The payload `applyDither` returns for raster g, `contrast**2` being the contrast
      it is called with. */
  function ImagePayload(g: Grid, w: nat, brightness: real, contrast: real): string
    requires IsGrid(g, w)
  {
    Payload(Dithered(Adjusted(g, brightness, contrast * contrast), w))
  }

  /** The canvas `print_text` draws: w wide, font size + 2 rows per line of the content. */
  function TextCanvas(content: string, w: nat, fontSize: nat, ink: (string, int, int) -> Pixel): (g: Grid)
    ensures |g| == (fontSize + 2) * |Lines(content)| && IsGrid(g, w)
    ensures forall y, x :: 0 <= y < |g| && 0 <= x < w ==> g[y][x] == ink(content, y, x)
  {
    seq((fontSize + 2) * (Count(content, '\n') + 1), y => seq(w, x => ink(content, y, x)))
  }

  /** What `print_text` prints for a text: the canvas of its wrapped content. */
  function TextPayload(text: string, w: nat, fontSize: nat, brightness: real, contrast: real,
                       ink: (string, int, int) -> Pixel): string
    requires fontSize > 0
  {
    ImagePayload(TextCanvas(Wrap(text, Limit(w, fontSize)).content, w, fontSize, ink), w, brightness, contrast)
  }

  /** `print_image` from the resized image on: dither it in place, then send the frames. */
  method PrintImageOn(device: Device, a: array2<Pixel>, brightness: real, contrast: real)
    modifies a, device
    ensures Holds(a, Dithered(Adjusted(old(Snapshot(a)), brightness, contrast * contrast), a.Length1))
    ensures device.log == old(device.log) + Writes(ImageFrames(ImagePayload(old(Snapshot(a)), a.Length1, brightness, contrast)))
  {
    var hex := ApplyDither(a, brightness, contrast * contrast);
    SendImage(device, hex);
  }

  /** `print_text`: wrap the text, draw it on a white canvas of the matching height,
      and print the canvas. */
  method PrintTextOn(device: Device, text: string, w: nat, fontSize: nat, brightness: real, contrast: real,
                     ink: (string, int, int) -> Pixel)
    requires fontSize > 0
    modifies device
    ensures device.log == old(device.log) + Writes(ImageFrames(TextPayload(text, w, fontSize, brightness, contrast, ink)))
  {
    var content := WrapText(text, w, fontSize);
    var lineCount := Count(content, '\n') + 1;
    var img := new Pixel[(fontSize + 2) * lineCount, w]((y, x) => ink(content, y, x));
    SameRaster(img, Snapshot(img), TextCanvas(content, w, fontSize, ink));
    PrintImageOn(device, img, brightness, contrast);
  }

  /** At the printers' 384-dot width every frame of a text job decodes as bytes, and
      the header's length field carries the canvas height, (font size + 2) times the
      number of lines, plus three. */
  lemma TextFrames384(text: string, fontSize: nat, brightness: real, contrast: real, ink: (string, int, int) -> Pixel)
    requires fontSize > 0
    ensures var p := TextPayload(text, 384, fontSize, brightness, contrast, ink);
      var lines := Lines(Wrap(text, Limit(384, fontSize)).content);
      LineCount(|p|) == (fontSize + 2) * |lines| + 3 &&
      (forall k :: 0 <= k < |ImageFrames(p)| ==> FromHex(ImageFrames(p)[k]).Some?)
  {
    var content := Wrap(text, Limit(384, fontSize)).content;
    var g := TextCanvas(content, 384, fontSize, ink);
    Frames384(Dithered(Adjusted(g, brightness, contrast * contrast), 384));
  }
}
