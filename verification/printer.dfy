/** The `Printer` class of printer.py (58-128): a printer on a serial port. */
module SerialPrinter {
  import opened HexText
  import opened Raster
  import opened DitherPasses
  import opened Transport
  import opened Framing
  import opened Printing

  class Printer {
    const width: nat := 384
    /** `self.brightnes` in the source. */
    const brightness: real := 0.35
    const contrast: real := 1.45
    /** Kept as in the source; the density frame does not depend on it. */
    const density: int := 1
    const device: Device

    /** Opening the port (`serial.Serial(path)`), then `enable` and `disable_shutdown`. */
    constructor ()
      ensures fresh(device)
      ensures device.log == [Call.Open] + Writes(EnableFrames) + Writes([DisableShutdownFrame])
    {
      device := new Device();
      new;
      device.Open();
      Enable();
      DisableShutdown();
    }

    method Enable()
      modifies device
      ensures device.log == old(device.log) + Writes(EnableFrames)
    {
      device.Write(EnableFrames[0]);
      device.Write(EnableFrames[1]);
      assert Writes(EnableFrames) == [Call.Write(EnableFrames[0]), Call.Write(EnableFrames[1])];
    }

    method DisableShutdown()
      modifies device
      ensures device.log == old(device.log) + Writes([DisableShutdownFrame])
    {
      device.Write(DisableShutdownFrame);
    }

    /** `print_text`, with the default font size 20 as one choice of `fontSize`. */
    method PrintText(text: string, fontSize: nat, ink: (string, int, int) -> Pixel)
      requires fontSize > 0
      modifies device
      ensures device.log == old(device.log) + Writes(ImageFrames(TextPayload(text, width, fontSize, brightness, contrast, ink)))
      ensures var p := TextPayload(text, width, fontSize, brightness, contrast, ink);
        forall k :: 0 <= k < |ImageFrames(p)| ==> FromHex(ImageFrames(p)[k]).Some?
    {
      PrintTextOn(device, text, width, fontSize, brightness, contrast, ink);
      TextFrames384(text, fontSize, brightness, contrast, ink);
    }

    /** `print_image` on the image after conversion and resizing to the printer's width. */
    method PrintImage(a: array2<Pixel>)
      requires a.Length1 == width
      modifies a, device
      ensures Holds(a, Dithered(Adjusted(old(Snapshot(a)), brightness, contrast * contrast), a.Length1))
      ensures device.log == old(device.log) + Writes(ImageFrames(ImagePayload(old(Snapshot(a)), a.Length1, brightness, contrast)))
      ensures var p := ImagePayload(old(Snapshot(a)), width, brightness, contrast);
        forall k :: 0 <= k < |ImageFrames(p)| ==> FromHex(ImageFrames(p)[k]).Some?
    {
      ghost var g0 := Snapshot(a);
      PrintImageOn(device, a, brightness, contrast);
      Frames384(Dithered(Adjusted(g0, brightness, contrast * contrast), width));
    }
  }
}
