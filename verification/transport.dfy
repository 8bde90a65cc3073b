/** The printer's connection (a serial port in printer.py, a serial or BLE device in
    main.py:9-41), seen only through what the encoder asks of it: open, write, close.
    Each write carries the hexadecimal text the encoder hands to `bytes.fromhex`;
    `HexText.FromHex` gives the bytes that reach the wire. */
module Transport {

  datatype Call = Open | Write(hex: string) | Close

  /** One write per frame, in order. */
  function Writes(frames: seq<string>): (calls: seq<Call>)
    ensures |calls| == |frames|
    ensures forall k :: 0 <= k < |frames| ==> calls[k] == Write(frames[k])
  {
    seq(|frames|, k requires 0 <= k < |frames| => Write(frames[k]))
  }

  lemma WritesAppend(a: seq<string>, b: seq<string>)
    ensures Writes(a + b) == Writes(a) + Writes(b)
  {
  }

  /** An append-only record of the calls made on the device. */
  class Device {
    var log: seq<Call>

    constructor ()
      ensures log == []
    {
      log := [];
    }

    method Open()
      modifies this
      ensures log == old(log) + [Call.Open]
    {
      log := log + [Call.Open];
    }

    method Write(hex: string)
      modifies this
      ensures log == old(log) + [Call.Write(hex)]
    {
      log := log + [Call.Write(hex)];
    }

    method Close()
      modifies this
      ensures log == old(log) + [Call.Close]
    {
      log := log + [Call.Close];
    }
  }
}
