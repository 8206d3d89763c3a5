/** FixedBuffer of LogStream.h, and how a buffer of bytes holds the lines of the asynchronous log. */
module FixedBuffers {
  import opened AsyncLog

  class FixedBuffer {
    const data: array<char>
    var cur: nat

    ghost predicate Valid()
      reads this
    {
      cur <= data.Length
    }

    ghost function Contents(): string
      reads this, data
      requires Valid()
    {
      data[..cur]
    }

    constructor (size: nat)
      ensures Valid() && fresh(data) && data.Length == size && Contents() == ""
    {
      data := new char[size](_ => '\0');
      cur := 0;
    }

    function Avail(): int
      reads this
    {
      data.Length - cur
    }

    /** All of the text or none of it; a text as long as the free space does not fit. */
    method Append(text: string)
      requires Valid()
      modifies this`cur, data
      ensures Valid()
      ensures Contents() == old(Contents()) + if old(Avail()) > |text| then text else ""
    {
      if Avail() > |text| {
        var i := 0;
        while i < |text|
          invariant 0 <= i <= |text| && cur == old(cur) && data[..cur + i] == old(data[..cur]) + text[..i]
        {
          data[cur + i] := text[i];
          assert data[..cur + i + 1] == data[..cur + i] + [text[i]];
          i := i + 1;
        }
        cur := cur + |text|;
      }
    }

    method Reset()
      requires Valid()
      modifies this`cur
      ensures Valid() && Contents() == ""
    {
      cur := 0;
    }

    /** The buffer holds these lines, one after the other. */
    ghost predicate HoldsLines(b: Buffer)
      reads this, data
    {
      Valid() && Contents() == Text(b)
    }

    /** Appending a line to the bytes is appending it to the list of lines. */
    method AppendLine(line: Line, ghost b: Buffer)
      requires HoldsLines(b)
      modifies this`cur, data
      ensures HoldsLines(Add(b, line, data.Length))
    {
      TextLength(b);
      assert (b + [line])[..|b|] == b;
      assert Text(b) + "" == Text(b);
      Append(line);
    }
  }

  /** The bytes of the lines. */
  function Text(b: Buffer): string {
    if |b| == 0 then "" else Text(b[..|b| - 1]) + b[|b| - 1]
  }

  lemma {:induction false} TextLength(b: Buffer)
    ensures |Text(b)| == Size(b)
  {
    if |b| > 0 {
      TextLength(b[..|b| - 1]);
    }
  }
}
