/**
  The edit half of `GuiTextBox`: a caller's byte buffer, the cursor index and the key-repeat
  counter, changed in place by one frame of input.  Each block of the C code is one method.
 */
module TextBox {
  import opened Options
  import opened Utf8
  import opened TextDoc
  import opened TextBytes
  import opened RawText
  import opened TextPointer

  /** Without a result, pressed, or undefined: the scan for the visible text or a backward scan left the text. */
  datatype Result = Nothing | Pressed | Overrun

  class TextBox {
    const text: array<Byte>
    const previous: Reader      // GetCodepointPrevious
    var cursor: nat
    var counter: nat

    constructor (buffer: array<Byte>, reader: Reader)
      ensures text == buffer && previous == reader && cursor == 0 && counter == 0
    {
      text, previous, cursor, counter := buffer, reader, 0, 0;
    }

    /** The buffer holds a string of `n` bytes and the cursor is inside it. */
    ghost predicate Holds(n: nat)
      reads this, text
    {
      cursor <= n < text.Length && IsCString(text[..n + 1])
    }

    /** String and cursor as a value. */
    ghost function Now(n: nat): Raw
      requires n < text.Length
      reads this, text
    {
      Raw(text[..n + 1], cursor)
    }

    // ----- The two byte movers -----

    /**
      The insertion block: open a gap of `k` bytes at the cursor and fill it from `src`.
      The gap loop also reads bytes before the cursor, and before the buffer when the gap is wider
      than the text in front of it; each of those reads yields any byte, and the fill overwrites every such cell.
     */
    method Splice(n: nat, src: seq<Byte>, k: nat) returns (m: nat)
      requires Holds(n) && k <= |src| && n + k < text.Length
      requires 0 !in src[..k]
      modifies text, this`cursor
      ensures m == n + k && Holds(m) && cursor == old(cursor) + k
      ensures text[..m + 1] == Spliced(old(text[..n + 1]), old(cursor), src[..k])
    {
      ghost var was := text[..n + 1];
      OpenGap(n, k);
      label filling:
      var i := 0;
      while i < k
        invariant cursor == old(cursor) && 0 <= i <= k
        invariant forall j :: cursor <= j < cursor + i ==> text[j] == src[j - cursor]
        invariant forall j :: 0 <= j < cursor || cursor + k <= j <= n + k ==> text[j] == old@filling(text[j])
      {
        text[cursor + i] := src[i];
        i := i + 1;
      }
      m := n + k;
      text[m] := 0;
      SplicedIs(text[..m + 1], was, src[..k], cursor);
      cursor := cursor + k;
    }

    method OpenGap(n: nat, k: nat)
      requires Holds(n) && n + k < text.Length
      modifies text
      ensures forall j :: 0 <= j < cursor ==> text[j] == old(text[..n + 1])[j]
      ensures forall j :: cursor + k <= j <= n + k ==> text[j] == old(text[..n + 1])[j - k]
    {
      hide IsCString;
      ghost var was := text[..n + 1];
      var i := n + k;
      while i > cursor
        invariant cursor <= i <= n + k
        invariant forall j :: 0 <= j <= i && j <= n ==> text[j] == was[j]
        invariant forall j :: i < j <= n + k && cursor + k <= j ==> text[j] == was[j - k]
      {
        var below :| 0 <= below < 256;
        text[i] := if i - k >= 0 then text[i - k] else below;
        i := i - 1;
      }
    }

    /** The deletion block: move everything from `offset` on, terminator included, `acc` bytes to the front. */
    method CloseGap(n: nat, offset: nat, acc: nat) returns (m: nat)
      requires Holds(n) && acc <= offset <= n
      modifies text
      ensures m == n - acc && m < text.Length && IsCString(text[..m + 1])
      ensures text[..m + 1] == Cut(old(text[..n + 1]), offset - acc, offset)
    {
      ghost var was := text[..n + 1];
      MoveFront(n, offset, acc);
      m := n - acc;
      CutIs(text[..m + 1], was, offset, acc);
    }

    method MoveFront(n: nat, offset: nat, acc: nat)
      requires n < text.Length && acc <= offset <= n
      modifies text
      ensures forall j :: 0 <= j < offset - acc ==> text[j] == old(text[..n + 1])[j]
      ensures forall j :: offset - acc <= j <= n - acc ==> text[j] == old(text[..n + 1])[j + acc]
    {
      ghost var was := text[..n + 1];
      var i := offset;
      while i <= n
        invariant offset <= i <= n + 1
        invariant forall j :: 0 <= j < offset - acc ==> text[j] == was[j]
        invariant forall j :: offset - acc <= j < i - acc ==> text[j] == was[j + acc]
        invariant forall j :: i <= j <= n ==> text[j] == was[j]
      {
        text[i - acc] := text[i];
        i := i + 1;
      }
    }

    // ----- Typing and pasting -----

    /** The counting loop of paste: decode clipboard codepoints until one is unwanted or does not fit. */
    method CountPaste(n: nat, clip: seq<Byte>) returns (len: nat)
      requires Holds(n) && IsCString(clip)
      ensures len == ByteTake(clip, text.Length - n, 0)
    {
      len := 0;
      while true
        invariant len < |clip|
        invariant ByteTake(clip, text.Length - n, 0) == ByteTake(clip, text.Length - n, len)
        decreases |clip| - len
      {
        var g := Next(clip, len);
        if n + len + g.size >= text.Length { break; }
        if !(g.codepoint >= 32) { break; }
        len := len + g.size;
      }
    }

    /** Paste on Ctrl+V, else insert the typed codepoint if it is printable and fits. */
    method TypeStage(n: nat, k: Keys, clip: Option<seq<Byte>>, encoder: Encoder) returns (m: nat)
      requires Holds(n) && (clip.Some? ==> IsCString(clip.value))
      requires encoder.utf8.Length == 6 && encoder.utf8 != text
      modifies text, this`cursor, encoder.utf8
      ensures Holds(m) && Now(m) == RawType(old(Now(n)), text.Length, k, clip)
    {
      hide ByteTake, Next, Encode, Spliced;
      m := n;
      var size := encoder.CodepointToUTF8(k.key);
      NothingChanges(text[..n + 1], cursor);
      if k.pressV && k.ctrl {
        if clip != None {
          var len := CountPaste(n, clip.value);
          if len > 0 {
            m := Splice(n, clip.value, len);
          }
        }
      } else if k.key >= 32 && n + size < text.Length {
        EncodingHasNoZero(k.key);
        m := Splice(n, encoder.utf8[..], size);
      }
    }

    /** Home, then End. */
    method HomeEndStage(n: nat, k: Keys)
      requires Holds(n)
      modifies this`cursor
      ensures Holds(n) && Now(n) == RawHomeEnd(old(Now(n)), k)
    {
      if n > 0 && k.pressHome { cursor := 0; }
      if n > cursor && k.pressEnd { cursor := n; }
    }

    // ----- Deleting after the cursor -----

    /** The scan of Ctrl+Delete: decode over one run, then over space, counting the bytes passed. */
    method DeletedWord(n: nat) returns (offset: nat, acc: nat)
      requires Holds(n) && cursor < n
      ensures offset == ByteWordEnd(text[..n + 1], cursor) && acc == offset - cursor
    {
      hide Encode, Next, IsSpace, IsPunct;
      ghost var s := text[..n + 1];
      offset, acc := cursor, 0;
      var next := Next(text[..n + 1], offset);
      var punct := IsPunct(next.codepoint);
      while offset < n
        invariant cursor <= offset <= n && acc == offset - cursor && next == Next(s, offset)
        invariant ByteSkipKind(s, punct, cursor) == ByteSkipKind(s, punct, offset)
      {
        if (punct && !IsPunct(next.codepoint)) || (!punct && (IsSpace(next.codepoint) || IsPunct(next.codepoint))) { break; }
        offset := offset + next.size;
        acc := acc + next.size;
        next := Next(text[..n + 1], offset);
      }
      ghost var q := offset;
      while offset < n
        invariant cursor <= offset <= n && acc == offset - cursor && next == Next(s, offset)
        invariant ByteSkipSpace(s, q) == ByteSkipSpace(s, offset)
      {
        if !IsSpace(next.codepoint) { break; }
        offset := offset + next.size;
        acc := acc + next.size;
        next := Next(text[..n + 1], offset);
      }
    }

    /** Delete a word on Ctrl+Delete, else one codepoint on Delete. */
    method DeleteStage(n: nat, k: Keys, repeat: bool) returns (m: nat)
      requires Holds(n)
      modifies text
      ensures Holds(m) && Now(m) == RawDelete(old(Now(n)), k, repeat)
    {
      hide Next, ByteWordEnd, IsCString, Cut;
      m := n;
      NothingChanges(text[..n + 1], cursor);
      if n > cursor && k.pressDelete && k.ctrl {
        var offset, acc := DeletedWord(n);
        m := CloseGap(n, offset, acc);
      } else if n > cursor && (k.pressDelete || (k.downDelete && repeat)) {
        TextIsTerminated(text[..n + 1]);
        var next := Next(text[..n + 1], cursor);
        m := CloseGap(n, cursor + next.size, next.size);
      }
    }

    // ----- Deleting before the cursor -----
    // `below` is the memory in front of the buffer, which the reader may look at.  A method stops without a
    // result where a step would lead in front of the text, or nowhere.

    /** The scan of Ctrl+Backspace: step back over space, then over one run, counting the bytes passed. */
    method BackspacedWord(n: nat, below: seq<Byte>) returns (acc: Option<nat>)
      requires Holds(n)
      ensures acc.Some? ==> acc.value <= cursor
      ensures ByteWordStart(Reading(previous, below), text[..n + 1], cursor) == if acc.Some? then Some(cursor - acc.value) else None
    {
      hide IsSpace, IsPunct, Behind;
      ghost var s, r := text[..n + 1], Reading(previous, below);
      var offset, count := cursor, 0;
      var prev := Glyph(0, 0);
      while offset > 0
        invariant 0 <= offset <= cursor && count == cursor - offset
        invariant ByteSkipSpaceBack(r, s, cursor) == ByteSkipSpaceBack(r, s, offset)
        decreases offset
      {
        prev := ReadBack(n, below, offset);
        if !IsSpace(prev.codepoint) { break; }
        if !(0 < prev.size <= offset) { return None; }
        offset := offset - prev.size;
        count := count + prev.size;
      }
      ghost var q := offset;
      assert ByteSkipSpaceBack(r, s, cursor) == Some(q) && (q > 0 ==> prev == Behind(r, s, q));
      var punct := IsPunct(prev.codepoint);
      while offset > 0
        invariant 0 <= offset <= q && count == cursor - offset && (q == 0 ==> offset == 0)
        invariant q > 0 ==> ByteSkipKindBack(r, s, punct, q) == ByteSkipKindBack(r, s, punct, offset)
        decreases offset
      {
        prev := ReadBack(n, below, offset);
        if (punct && !IsPunct(prev.codepoint)) || (!punct && (IsSpace(prev.codepoint) || IsPunct(prev.codepoint))) { break; }
        if !(0 < prev.size <= offset) { return None; }
        offset := offset - prev.size;
        count := count + prev.size;
      }
      acc := Some(count);
    }

    /** The call of `GetCodepointPrevious` with `text + offset`. */
    method ReadBack(n: nat, below: seq<Byte>, offset: nat) returns (g: Glyph)
      requires n < text.Length && offset <= n
      ensures g == Behind(Reading(previous, below), text[..n + 1], offset)
    {
      assert text[..n + 1][..offset] == text[..offset] && text[..n + 1][offset..] == text[offset..n + 1];
      g := previous(below + text[..offset], text[offset..n + 1]);
    }

    /** Delete a word on Ctrl+Backspace, else one codepoint on Backspace. */
    method BackspaceStage(n: nat, k: Keys, repeat: bool, below: seq<Byte>) returns (m: Option<nat>)
      requires Holds(n)
      modifies text, this`cursor
      ensures m.Some? ==> Holds(m.value)
      ensures RawBackspace(Reading(previous, below), old(Now(n)), k, repeat) == if m.Some? then Some(Now(m.value)) else None
      ensures m == None ==> Now(n) == old(Now(n))
    {
      hide ByteWordStart, Behind, IsCString, Cut;
      NothingChanges(text[..n + 1], cursor);
      m := Some(n);
      if cursor > 0 && k.pressBackspace && k.ctrl {
        var acc := BackspacedWord(n, below);
        if acc == None { return None; }
        var rest := CloseGap(n, cursor, acc.value);
        cursor := cursor - acc.value;
        m := Some(rest);
      } else if cursor > 0 && (k.pressBackspace || (k.downBackspace && repeat)) {
        var prev := ReadBack(n, below, cursor);
        if prev.size > cursor { return None; }
        var rest := CloseGap(n, cursor, prev.size);
        cursor := cursor - prev.size;
        m := Some(rest);
      }
    }

    // ----- Moving the cursor -----

    /** The scan of Ctrl+Left. */
    method WordLeft(n: nat, below: seq<Byte>) returns (offset: Option<nat>)
      requires Holds(n)
      ensures offset == ByteWordStart(Reading(previous, below), text[..n + 1], cursor)
    {
      hide IsSpace, IsPunct, Behind;
      ghost var s, r := text[..n + 1], Reading(previous, below);
      var i := cursor;
      var prev := Glyph(0, 0);
      while i > 0
        invariant 0 <= i <= cursor
        invariant ByteSkipSpaceBack(r, s, cursor) == ByteSkipSpaceBack(r, s, i)
        decreases i
      {
        prev := ReadBack(n, below, i);
        if !IsSpace(prev.codepoint) { break; }
        if !(0 < prev.size <= i) { return None; }
        i := i - prev.size;
      }
      ghost var q := i;
      assert ByteSkipSpaceBack(r, s, cursor) == Some(q) && (q > 0 ==> prev == Behind(r, s, q));
      var punct := IsPunct(prev.codepoint);
      while i > 0
        invariant 0 <= i <= q && (q == 0 ==> i == 0)
        invariant q > 0 ==> ByteSkipKindBack(r, s, punct, q) == ByteSkipKindBack(r, s, punct, i)
        decreases i
      {
        prev := ReadBack(n, below, i);
        if (punct && !IsPunct(prev.codepoint)) || (!punct && (IsSpace(prev.codepoint) || IsPunct(prev.codepoint))) { break; }
        if !(0 < prev.size <= i) { return None; }
        i := i - prev.size;
      }
      offset := Some(i);
    }

    /** The scan of Ctrl+Right. */
    method WordRight(n: nat) returns (offset: nat)
      requires Holds(n) && cursor < n
      ensures offset == ByteWordEnd(text[..n + 1], cursor)
    {
      hide Encode, Next, IsSpace, IsPunct;
      ghost var s := text[..n + 1];
      offset := cursor;
      var next := Next(text[..n + 1], offset);
      var punct := IsPunct(next.codepoint);
      while offset < n
        invariant cursor <= offset <= n && next == Next(s, offset)
        invariant ByteSkipKind(s, punct, cursor) == ByteSkipKind(s, punct, offset)
      {
        if (punct && !IsPunct(next.codepoint)) || (!punct && (IsSpace(next.codepoint) || IsPunct(next.codepoint))) { break; }
        offset := offset + next.size;
        next := Next(text[..n + 1], offset);
      }
      ghost var q := offset;
      while offset < n
        invariant cursor <= offset <= n && next == Next(s, offset)
        invariant ByteSkipSpace(s, q) == ByteSkipSpace(s, offset)
      {
        if !IsSpace(next.codepoint) { break; }
        offset := offset + next.size;
        next := Next(text[..n + 1], offset);
      }
    }

    /** The arrow keys: one chain of branches, of which at most one moves the cursor. */
    method MoveStage(n: nat, k: Keys, repeat: bool, below: seq<Byte>) returns (inside: bool)
      requires Holds(n)
      modifies this`cursor
      ensures Holds(n) && text[..n + 1] == old(text[..n + 1])
      ensures RawMove(Reading(previous, below), old(Now(n)), k, repeat) == if inside then Some(Now(n)) else None
    {
      hide Next, ByteWordStart, ByteWordEnd, Behind;
      inside := true;
      if cursor > 0 && k.pressLeft && k.ctrl {
        var offset := WordLeft(n, below);
        if offset == None { return false; }
        cursor := offset.value;
      } else if cursor > 0 && (k.pressLeft || (k.downLeft && repeat)) {
        var prev := ReadBack(n, below, cursor);
        if prev.size > cursor { return false; }
        cursor := cursor - prev.size;
      } else if n > cursor && k.pressRight && k.ctrl {
        cursor := WordRight(n);
      } else if n > cursor && (k.pressRight || (k.downRight && repeat)) {
        var next := Next(text[..n + 1], cursor);
        cursor := cursor + next.size;
      }
    }

    // ----- The pointer -----

    /** The scan for the first byte to show, so that the cursor is in the box; the model stops when it leaves the string. */
    method ScrollStart(n: nat, mouse: Mouse) returns (scroll: Option<nat>)
      requires Holds(n)
      ensures scroll == FirstShown(text[..n + 1], mouse, cursor, 0)
    {
      hide Next;
      var textIndexOffset := 0;
      var textWidth := mouse.width(0) - mouse.width(cursor);
      while textWidth as real >= mouse.box
        invariant textIndexOffset <= n && textWidth == mouse.width(textIndexOffset) - mouse.width(cursor)
        invariant FirstShown(text[..n + 1], mouse, cursor, 0) == FirstShown(text[..n + 1], mouse, cursor, textIndexOffset)
        decreases n - textIndexOffset
      {
        if textIndexOffset == n { return None; }
        var next := Next(text[..n + 1], textIndexOffset);
        textIndexOffset := textIndexOffset + next.size;
        textWidth := mouse.width(textIndexOffset) - mouse.width(cursor);
      }
      return Some(textIndexOffset);
    }

    /** From the first byte shown, stop at the first glyph whose middle is right of the pointer; a press takes the cursor there. */
    method MouseStage(n: nat, mouse: Mouse, scroll: nat)
      requires Holds(n)
      modifies this`cursor
      ensures Holds(n) && cursor == Placed(text[..n + 1], old(cursor), mouse, scroll)
    {
      hide Next;
      if mouse.overText {
        var glyphWidth, widthToMouseX := 0.0, 0.0;
        var index, mouseCursorX := 0, -1.0;
        var i := scroll;
        while i < n
          invariant mouseCursorX == -1.0
          invariant GlyphUnder(text[..n + 1], mouse, scroll, 0.0, 0.0) == GlyphUnder(text[..n + 1], mouse, i, widthToMouseX, glyphWidth)
          decreases n - i
          modifies {}
        {
          var g := Next(text[..n + 1], i);
          glyphWidth := mouse.glyph(i);
          if mouse.x <= widthToMouseX + glyphWidth / 2.0 {
            index, mouseCursorX := i, mouse.left + widthToMouseX;
            break;
          }
          widthToMouseX := widthToMouseX + (glyphWidth + mouse.spacing);
          i := i + g.size;
        }
        var textEndWidth := mouse.widthAfter(scroll);
        if mouse.x >= textEndWidth as real - glyphWidth / 2.0 {
          index, mouseCursorX := n, mouse.left + textEndWidth as real;
        }
        if mouseCursorX >= 0.0 && mouse.pressed { cursor := index; }
      }
    }

    // ----- One frame -----

    method TextLength(ghost n: nat) returns (len: nat)
      requires n < text.Length && IsCString(text[..n + 1])
      ensures len == n
    {
      len := 0;
      while text[len] != 0
        invariant len <= n
        decreases n - len
      {
        assert text[..n + 1][len] != 0;
        len := len + 1;
      }
      assert text[..n + 1][len] == 0;
    }

    /** The keyboard part of a frame: every stage once, in the order of the C code; up to a backward scan that leaves the text. */
    method KeyboardStages(n: nat, k: Keys, clip: Option<seq<Byte>>, repeat: bool, encoder: Encoder, below: seq<Byte>)
      returns (m: nat, inside: bool)
      requires Holds(n) && (clip.Some? ==> IsCString(clip.value))
      requires encoder.utf8.Length == 6 && encoder.utf8 != text
      modifies text, this`cursor, encoder.utf8
      ensures Holds(m)
      ensures RawFrame(Reading(previous, below), old(Now(n)), text.Length, k, clip, repeat) == if inside then Some(Now(m)) else None
    {
      hide IsCString, RawType, RawHomeEnd, RawDelete, RawBackspace, RawMove;
      m := TypeStage(n, k, clip, encoder);
      HomeEndStage(m, k);
      m := DeleteStage(m, k, repeat);
      var rest := BackspaceStage(m, k, repeat, below);
      if rest == None { return m, false; }
      m := rest.value;
      inside := MoveStage(m, k, repeat, below);
    }

    /** String and cursor as a call finds them: a cursor index left behind by a longer text counts as the end. */
    ghost function Entered(n: nat): Raw
      requires n < text.Length
      reads this, text
    {
      Raw(text[..n + 1], if cursor > n then n else cursor)
    }

    /** One call of `GuiTextBox`, on any text and any clipboard.  `editable` is the conjunction that guards all editing. */
    method GuiTextBox(editable: bool, editMode: bool, k: Keys, clip: Option<seq<Byte>>, mouse: Mouse, encoder: Encoder,
                      below: seq<Byte>, ghost n: nat)
      returns (result: Result, ghost m: nat)
      requires n < text.Length && IsCString(text[..n + 1]) && (clip.Some? ==> IsCString(clip.value))
      requires encoder.utf8.Length == 6 && encoder.utf8 != text
      modifies this, text, encoder.utf8
      ensures m < text.Length && IsCString(text[..m + 1])
      ensures !(editable && editMode) ==> m == n && text[..] == old(text[..])
      ensures !(editable && (editMode || (mouse.overBounds && mouse.pressed))) ==>
                result == Nothing && cursor == old(cursor) && counter == old(counter)
      ensures editable && !editMode && mouse.overBounds && mouse.pressed ==>
                result == Pressed && cursor == n && counter == 0
      ensures editable && editMode ==>
                var held, start := RepeatCounter(old(counter), k), old(Entered(n));
                var scroll := FirstShown(start.s, mouse, start.cursor, 0);
                var frame := RawFrame(Reading(previous, below), start, text.Length, k, clip, held > COOLDOWN);
                && (result == Overrun <==> scroll == None || frame == None)
                && (scroll == None ==> text[..] == old(text[..]))
                && (result != Overrun ==>
                      && text[..m + 1] == frame.value.s
                      && (if k.pressEnter || (!mouse.overBounds && mouse.pressed) then result == Pressed && cursor == 0 && counter == 0
                          else
                            && result == Nothing && counter == held
                            && cursor == Placed(frame.value.s, frame.value.cursor, mouse, scroll.value)))
    {
      hide IsCString, RawFrame, FirstShown, Placed;
      result, m := Nothing, n;
      if editable {
        var len := TextLength(n);
        if editMode {
          counter := RepeatCounter(counter, k);
          var repeat := counter > COOLDOWN;
          if cursor > len { cursor := len; }
          assert Now(n) == old(Entered(n));
          var scroll := ScrollStart(len, mouse);
          if scroll == None { return Overrun, n; }
          var inside;
          len, inside := KeyboardStages(len, k, clip, repeat, encoder, below);
          m := len;
          if !inside { return Overrun, m; }
          MouseStage(len, mouse, scroll.value);
          if k.pressEnter || (!mouse.overBounds && mouse.pressed) {  // Enter, or a press outside the box, ends editing
            cursor, counter, result := 0, 0, Pressed;
          }
        } else if mouse.overBounds && mouse.pressed {
          cursor, counter, result := len, 0, Pressed;
        }
      }
    }

    /** A press over well-formed text, glyphs side by side: the cursor goes to the boundary nearest to the pointer, of those shown. */
    method Click(mouse: Mouse, encoder: Encoder, below: seq<Byte>, ghost n: nat, ghost d: Doc)
      returns (result: Result, ghost m: nat, ghost a: nat, ghost p: nat)
      requires Fits(d, text.Length) && n < text.Length && Now(n) == Image(d)
      requires mouse.overText && mouse.overBounds && mouse.pressed && mouse.left >= 0.0 && mouse.x >= 0.0 && mouse.box > 0.0
      requires forall a :: 0 <= a <= |d.cs| ==> SideBySide(d.cs, mouse, a)
      requires encoder.utf8.Length == 6 && encoder.utf8 != text
      modifies this, text, encoder.utf8
      ensures result == Nothing && m == n && text[..n + 1] == old(text[..n + 1])
      ensures a <= p <= |d.cs| && Off(d.cs, a) <= Off(d.cs, d.pos) && Shown(mouse, Off(d.cs, d.pos), Off(d.cs, a))
      ensures cursor == Off(d.cs, p)
      ensures forall q :: a <= q <= |d.cs| ==> Distance(mouse.x, Edge(d.cs, mouse, a, p)) <= Distance(mouse.x, Edge(d.cs, mouse, a, q))
      ensures mouse.x >= Edge(d.cs, mouse, a, |d.cs|) ==> p == |d.cs|
    {
      hide IsCString, RawFrame, FirstShown, Placed, Off, EncodeAll, SideBySide, Edge, Distance, Shown;
      ImageInText(d, text.Length);
      ScrollsToTheCursor(d.cs, mouse, d.pos);
      ghost var i: nat :| i <= |d.cs| && Off(d.cs, i) == FirstShown(Str(d.cs), mouse, Off(d.cs, d.pos), 0).value;
      a := i;
      p := ClickIsNearest(d.cs, Off(d.cs, d.pos), mouse, a);
      IdleFrame(Reading(previous, below), Image(d), text.Length, RepeatCounter(counter, IDLE) > COOLDOWN);
      assert Entered(n) == Image(d);
      result, m := GuiTextBox(true, true, IDLE, None, mouse, encoder, below, n);
    }

    /** Any run of keyboard frames in edit mode, from any text and with any clipboards, up to an overrun. */
    method RunFrames(frames: seq<RawInput>, encoder: Encoder, ghost n: nat) returns (inside: bool, ghost m: nat)
      requires Holds(n) && Clips(frames) && encoder.utf8.Length == 6 && encoder.utf8 != text
      modifies this, text, encoder.utf8
      ensures inside ==> Holds(m)
      ensures RawRun(previous, old(Now(n)), old(counter), text.Length, frames) == if inside then Some((Now(m), counter)) else None
    {
      hide IsCString, RawFrame;
      ghost var all := RawRun(previous, Now(n), counter, text.Length, frames);
      m := n;
      var i := 0;
      while i < |frames|
        invariant 0 <= i <= |frames| && Holds(m) && Clips(frames[i..])
        invariant all == RawRun(previous, Now(m), counter, text.Length, frames[i..])
      {
        var f := frames[i];
        ghost var was := Now(m);
        assert frames[i..][0] == f && frames[i..][1..] == frames[i + 1..];
        assert Entered(m) == was;
        ShownAtOnce(was.s, was.cursor);
        var result;
        result, m := GuiTextBox(true, true, f.keys, f.clip, NO_MOUSE, encoder, f.below, m);
        if result == Overrun { return false, m; }
        i := i + 1;
      }
      inside := true;
    }

    /** On well-formed text, with well-formed clipboards, a run never overruns, and leaves what the abstract run does. */
    method RunTextFrames(frames: seq<RawInput>, encoder: Encoder, ghost n: nat, ghost d: Doc, ghost typed: seq<Frame>)
      returns (inside: bool, ghost m: nat)
      requires ReadsBack(previous) && Fits(d, text.Length) && n < text.Length && Now(n) == Image(d)
      requires ShowsAll(frames, typed) && forall f :: f in typed && f.clip.Some? ==> 0 !in f.clip.value
      requires encoder.utf8.Length == 6 && encoder.utf8 != text
      modifies this, text, encoder.utf8
      ensures inside && Holds(m)
      ensures var r := Run(Session(d, old(counter)), text.Length, typed);
              Fits(r.doc, text.Length) && Now(m) == Image(r.doc) && counter == r.counter
    {
      hide IsCString, RawRun, ReadsBack, Run, EncodeAll, Off;
      RunAgrees(previous, Session(d, counter), text.Length, typed, frames);
      inside, m := RunFrames(frames, encoder, n);
    }
  }

  /** Without a pointer, and with text that fits the box, the cursor stays where the keys put it. */
  lemma ShownAtOnce(s: seq<Byte>, cursor: nat)
    requires IsCString(s)
    ensures FirstShown(s, NO_MOUSE, cursor, 0) == Some(0)
    ensures forall t, c: nat, scroll: nat :: IsCString(t) && c < |t| ==> Placed(t, c, NO_MOUSE, scroll) == c
  {
  }
}
