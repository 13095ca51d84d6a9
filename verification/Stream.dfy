/**
 The character stream: a buffer that is either all there is, and swallows what does not fit, or
 is emptied into a descriptor whenever it is full.
 */
module Streams {
  import opened Common

  /** What is shown when `more` follows a text on a stream whose buffer holds `size` characters. */
  function Shown(text: Text, more: Text, size: nat, endless: bool): Text {
    if endless || |text| + |more| <= size then text + more
    else if |text| <= size then (text + more)[..size]
    else text
  }

  /** With a descriptor or room for it everything is shown; otherwise as much as fits behind the text. */
  lemma ShownMeans(text: Text, more: Text, size: nat, endless: bool)
    requires endless || |text| <= size
    ensures var shown := Shown(text, more, size, endless);
      if endless || |text| + |more| <= size then shown == text + more
      else |shown| == size && text <= shown <= text + more
  {
    var both := text + more;
    if !endless && size < |both| { assert both[..size][..|text|] == both[..|text|] == text; }
  }

  lemma ShownNothing(text: Text, size: nat, endless: bool)
    requires endless || |text| <= size
    ensures Shown(text, [], size, endless) == text
  {
  }

  /** Characters may be put one at a time. */
  lemma ShownOne(text: Text, c: char, more: Text, size: nat, endless: bool)
    requires endless || |text| <= size
    ensures Shown(Shown(text, [c], size, endless), more, size, endless) == Shown(text, [c] + more, size, endless)
    ensures endless || |Shown(text, [c], size, endless)| <= size
  {
  }

  /** Text may be put in two pieces. */
  lemma {:induction false} ShownSome(text: Text, a: Text, b: Text, size: nat, endless: bool)
    requires endless || |text| <= size
    ensures Shown(Shown(text, a, size, endless), b, size, endless) == Shown(text, a + b, size, endless)
    ensures endless || |Shown(text, a, size, endless)| <= size
  {
  }

  class Stream {
    const hasDescriptor: bool
    const buffer: array<char>
    var pos: nat
    var totalSize: nat
    /** What was written to the descriptor. */
    var written: Text

    ghost predicate Valid()
      reads this
    {
      && pos <= buffer.Length
      && (hasDescriptor ==> 0 < buffer.Length)
      && (!hasDescriptor ==> written == [])
      && totalSize == |written| + pos
    }

    ghost function Text(): Text
      requires Valid()
      reads this, buffer
    {
      written + buffer[..pos]
    }

    constructor (buffer: array<char>, hasDescriptor: bool)
      requires hasDescriptor ==> 0 < buffer.Length
      ensures Valid() && this.buffer == buffer && this.hasDescriptor == hasDescriptor
      ensures Text() == [] && totalSize == 0
    {
      this.buffer := buffer;
      this.hasDescriptor := hasDescriptor;
      pos, totalSize, written := 0, 0, [];
    }

    method Discard()
      requires Valid()
      modifies `pos, `written
      ensures Valid() && Text() == old(Text())
      ensures hasDescriptor ==> pos == 0
      ensures !hasDescriptor ==> pos == old(pos)
    {
      if !hasDescriptor { return; }
      written := written + buffer[..pos];
      pos := 0;
    }

    method PutC(c: char)
      requires Valid()
      modifies this, buffer
      ensures Valid() && Text() == Shown(old(Text()), [c], buffer.Length, hasDescriptor)
    {
      if pos >= buffer.Length {
        if !hasDescriptor { return; }
        Discard();
      }
      ghost var text := Text();
      buffer[pos] := c;
      pos := pos + 1;
      totalSize := totalSize + 1;
      assert buffer[..pos] == buffer[..pos - 1] + [c];
    }
  }
}
