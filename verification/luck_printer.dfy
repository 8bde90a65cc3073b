/** The `LuckPrinter` class of main.py (44-132): the same printer over a device that is
    opened and closed explicitly (serial or Bluetooth; the transport is not modelled). */
module LuckPrinterModel {
  import opened HexText
  import opened Raster
  import opened DitherPasses
  import opened Transport
  import opened Framing
  import opened Printing

  class LuckPrinter {
    const device: Device
    const width: nat := 384
    const brightness: real := 0.35
    const contrast: real := 1.45
    /** Kept as in the source; the density frame does not depend on it. */
    const density: int := 1

    /** Stores the device; nothing is written. */
    constructor (d: Device)
      ensures device == d
    {
      device := d;
    }

    /** `initialize`: open, then `enable`, then `disable_shutdown`, in that order. */
    method Initialize()
      modifies device
      ensures device.log == old(device.log) + [Call.Open] + Writes(EnableFrames) + Writes([DisableShutdownFrame])
    {
      Open();
      Enable();
      DisableShutdown();
    }

    method Open()
      modifies device
      ensures device.log == old(device.log) + [Call.Open]
    {
      device.Open();
    }

    method Close()
      modifies device
      ensures device.log == old(device.log) + [Call.Close]
    {
      device.Close();
    }

    method Enable()
      modifies device
      ensures device.log == old(device.log) + Writes(EnableFrames)
    {
      device.Write(EnableFrames[0]);
      device.Write(EnableFrames[1]);
      assert Writes(EnableFrames) == [Call.Write(EnableFrames[0]), Call.Write(EnableFrames[1])];
    }

    /** `print_end`: the left-padded feed frame, then the end-of-job frame. */
    method PrintEnd()
      modifies device
      ensures device.log == old(device.log) + Writes(PrintEndFrames())
    {
      device.Write(RJust("1B4A64", 256, '0'));
      device.Write("10FFF145");
      assert Writes(PrintEndFrames()) == [Call.Write(RJust("1B4A64", 256, '0')), Call.Write("10FFF145")];
    }

    method DisableShutdown()
      modifies device
      ensures device.log == old(device.log) + Writes([DisableShutdownFrame])
    {
      device.Write(DisableShutdownFrame);
    }

    method PrintText(text: string, fontSize: nat, ink: (string, int, int) -> Pixel)
      requires fontSize > 0
      modifies device
      ensures device.log == old(device.log) + Writes(ImageFrames(TextPayload(text, width, fontSize, brightness, contrast, ink)))
      ensures var p := TextPayload(text, width, fontSize, brightness, contrast, ink);
        forall k :: 0 <= k < |ImageFrames(p)| ==> FromHex(ImageFrames(p)[k]).Some?
    {
      PrintTextOn(device, text, width, fontSize, brightness, contrast, ink);
      TextFrames384(text, fontSize, brightness, contrast, ink);
    }

    /** `print_image` on the image after conversion and resizing to the printer's width. */
    method PrintImage(a: array2<Pixel>)
      requires a.Length1 == width
      modifies a, device
      ensures Holds(a, Dithered(Adjusted(old(Snapshot(a)), brightness, contrast * contrast), a.Length1))
      ensures device.log == old(device.log) + Writes(ImageFrames(ImagePayload(old(Snapshot(a)), a.Length1, brightness, contrast)))
      ensures var p := ImagePayload(old(Snapshot(a)), width, brightness, contrast);
        forall k :: 0 <= k < |ImageFrames(p)| ==> FromHex(ImageFrames(p)[k]).Some?
    {
      ghost var g0 := Snapshot(a);
      PrintImageOn(device, a, brightness, contrast);
      Frames384(Dithered(Adjusted(g0, brightness, contrast * contrast), width));
    }
  }
}
