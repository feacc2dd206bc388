/** The Kate text buffer of kernel/desktop.c: edits in place, cursor movement and the row scan
    of the renderer. */
module Kate {
  import opened Bytes
  import opened KString
  import opened Lines

  const KATE_MAXBUF := 4096
  const KATE_VROWS := 18
  const KATE_VCOLS := 76

  // ---- the editor on values ---------------------------------------------------------------------

  datatype Doc = Doc(text: seq<byte>, pos: nat)

  predicate DocOk(d: Doc) {
    d.pos <= |d.text| < KATE_MAXBUF
  }

  datatype Key = Up | Down | Left | Right | Home | End | Back | Del | Type(c: byte)

  function Min(a: int, b: int): int {
    if a < b then a else b
  }

  function LineLength(t: seq<byte>, ln: int): nat {
    LnEnd(t, ln) - LnStart(t, ln)
  }

  /** A place on line `ln` as near to column `col` as it goes. */
  function Land(t: seq<byte>, ln: int, col: nat): (p: nat)
    ensures p <= |t|
  {
    LnStart(t, ln) + Min(col, LineLength(t, ln))
  }

  function UpFrom(t: seq<byte>, p: nat): (q: nat)
    requires p <= |t|
    ensures q <= |t|
  {
    if LineOf(t, p) == 0 then p else Land(t, LineOf(t, p) - 1, ColOf(t, p))
  }

  function DownFrom(t: seq<byte>, p: nat): (q: nat)
    requires p <= |t|
    ensures q <= |t|
  {
    if LineOf(t, p) == LastLine(t) then p else Land(t, LineOf(t, p) + 1, ColOf(t, p))
  }

  function Press(d: Doc, key: Key): (e: Doc)
    requires DocOk(d)
    ensures DocOk(e)
  {
    var t, p := d.text, d.pos;
    match key
    case Up => Doc(t, UpFrom(t, p))
    case Down => Doc(t, DownFrom(t, p))
    case Left => if p > 0 then Doc(t, p - 1) else d
    case Right => if p < |t| then Doc(t, p + 1) else d
    case Home => Doc(t, LnStart(t, LineOf(t, p)))
    case End => Doc(t, LnEnd(t, LineOf(t, p)))
    case Back => if p == 0 then d else Doc(t[..p - 1] + t[p..], p - 1)
    case Del => if p == |t| then d else Doc(t[..p] + t[p + 1..], p)
    case Type(c) => if |t| >= KATE_MAXBUF - 1 then d else Doc(t[..p] + [c] + t[p..], p + 1)
  }

  const KEY_ESC := 0x1b
  const KEY_UP := 0x100
  const KEY_DOWN := 0x101
  const KEY_LEFT := 0x102
  const KEY_RIGHT := 0x103
  const KEY_F1 := 0x201
  const KEY_F3 := 0x203
  const KEY_F4 := 0x204

  /** What the key codes `run_kate` receives mean to the text; `None` for those that leave it. */
  function KeyOf(code: int): Option<Key> {
    match code
    case 0x100 => Some(Up)
    case 0x101 => Some(Down)
    case 0x102 => Some(Left)
    case 0x103 => Some(Right)
    case 0x201 => Some(Home)
    case 0x203 => Some(End)
    case 0x204 => Some(Del)
    case 8 => Some(Back)
    case 127 => Some(Back)
    case 10 => Some(Type(NEWLINE))
    case 13 => Some(Type(NEWLINE))
    case _ => if 32 <= code < 127 then Some(Type(code)) else None
  }

  function PressCode(d: Doc, code: int): (e: Doc)
    requires DocOk(d)
    ensures DocOk(e)
  {
    match KeyOf(code)
    case None => d
    case Some(key) => Press(d, key)
  }

  /** The cursor keys land on the neighbouring line, at the old column or at that line's end. */
  lemma UpMoves(t: seq<byte>, p: nat)
    requires p <= |t| && LineOf(t, p) > 0
    ensures LineOf(t, UpFrom(t, p)) == LineOf(t, p) - 1
    ensures ColOf(t, UpFrom(t, p)) == Min(ColOf(t, p), LineLength(t, LineOf(t, p) - 1))
  {
    PositionIsLinePlusColumn(t, p);
    LandExact(t, LineOf(t, p) - 1, ColOf(t, p));
  }

  lemma DownMoves(t: seq<byte>, p: nat)
    requires p <= |t| && LineOf(t, p) < LastLine(t)
    ensures LineOf(t, DownFrom(t, p)) == LineOf(t, p) + 1
    ensures ColOf(t, DownFrom(t, p)) == Min(ColOf(t, p), LineLength(t, LineOf(t, p) + 1))
  {
    LandExact(t, LineOf(t, p) + 1, ColOf(t, p));
  }

  lemma LandExact(t: seq<byte>, ln: nat, col: nat)
    requires ln <= LastLine(t)
    ensures LineOf(t, Land(t, ln, col)) == ln && ColOf(t, Land(t, ln, col)) == Min(col, LineLength(t, ln))
  {
    LinePlusColumnIsPosition(t, ln, Min(col, LineLength(t, ln)));
  }

  /** A place on the same line, at the old column cut to `w`. */
  lemma SamePlace(t: seq<byte>, p: nat, q: nat, w: nat)
    requires p <= |t| && q <= |t| && LineOf(t, q) == LineOf(t, p)
    requires ColOf(t, q) == Min(Min(ColOf(t, p), w), LineLength(t, LineOf(t, p)))
    ensures q == p <==> ColOf(t, p) <= w
  {
    PositionIsLinePlusColumn(t, p);
    PositionIsLinePlusColumn(t, q);
  }

  /** Up and then Down come back to the line; to the place too if the line above is long enough. */
  lemma UpThenDown(t: seq<byte>, p: nat)
    requires p <= |t| && LineOf(t, p) > 0
    ensures var q := DownFrom(t, UpFrom(t, p));
      && LineOf(t, q) == LineOf(t, p)
      && (q == p <==> ColOf(t, p) <= LineLength(t, LineOf(t, p) - 1))
  {
    UpMoves(t, p);
    LineOfMonotone(t, p, |t|);
    DownMoves(t, UpFrom(t, p));
    SamePlace(t, p, DownFrom(t, UpFrom(t, p)), LineLength(t, LineOf(t, p) - 1));
  }

  /** Typing and then erasing restores text and cursor exactly when there was room to type, or
      nothing before the cursor to erase. */
  lemma TypeThenBack(d: Doc, c: byte)
    requires DocOk(d)
    ensures Press(Press(d, Type(c)), Back) == d <==> |d.text| < KATE_MAXBUF - 1 || d.pos == 0
  {
  }

  lemma Inserted(t: seq<byte>, u: seq<byte>, p: nat, c: byte)
    requires p <= |t| && |u| == |t| + 1 && u[p] == c
    requires forall k {:trigger u[k]} :: 0 <= k < |u| && k != p ==> u[k] == if k < p then t[k] else t[k - 1]
    ensures u == t[..p] + [c] + t[p..]
  {
  }

  lemma Erased(t: seq<byte>, u: seq<byte>, p: nat)
    requires p < |t| && |u| == |t| - 1
    requires forall k {:trigger u[k]} :: 0 <= k < |u| ==> u[k] == if k < p then t[k] else t[k + 1]
    ensures u == t[..p] + t[p + 1..]
  {
  }

  /** Del erases what Right followed by Back erases. */
  lemma DelIsRightBack(d: Doc)
    requires DocOk(d) && d.pos < |d.text|
    ensures Press(d, Del) == Press(Press(d, Right), Back)
  {
  }

  /** Left and Right undo each other wherever the first of them moves. */
  lemma LeftRight(d: Doc)
    requires DocOk(d)
    ensures d.pos < |d.text| ==> Press(Press(d, Right), Left) == d && Press(d, Right).pos == d.pos + 1
    ensures d.pos > 0 ==> Press(Press(d, Left), Right) == d
    ensures d.pos == |d.text| ==> Press(d, Right) == d
    ensures d.pos == 0 ==> Press(d, Left) == d
  {
  }

  /** Home and End go to the first and the last place of the cursor's line. */
  lemma HomeEnd(d: Doc)
    requires DocOk(d)
    ensures var h := Press(d, Home);
      h.text == d.text && LineOf(d.text, h.pos) == LineOf(d.text, d.pos) && ColOf(d.text, h.pos) == 0
    ensures var e := Press(d, End);
      && e.text == d.text && LineOf(d.text, e.pos) == LineOf(d.text, d.pos)
      && (e.pos == |d.text| || d.text[e.pos] == 10)
  {
    var ln := LineOf(d.text, d.pos);
    PositionIsLinePlusColumn(d.text, d.pos);
    LinePlusColumnIsPosition(d.text, ln, 0);
    LinePlusColumnIsPosition(d.text, ln, LineLength(d.text, ln));
  }

  /** The place `q` is `step` lines further down, at the same column or that line's end. */
  predicate Lands(t: seq<byte>, p: nat, q: nat, step: int)
    requires p <= |t| && q <= |t|
  {
    && LineOf(t, q) == LineOf(t, p) + step
    && ColOf(t, q) == Min(ColOf(t, p), LineLength(t, LineOf(t, p) + step))
  }

  /** What the key codes of the source do: the cursor keys, F1 and F3. */
  lemma CursorCodes(d: Doc)
    requires DocOk(d)
    ensures var t, p, e := d.text, d.pos, PressCode(d, 0x100);
      e.text == t && if LineOf(t, p) == 0 then e.pos == p else Lands(t, p, e.pos, -1)
    ensures var t, p, e := d.text, d.pos, PressCode(d, 0x101);
      e.text == t && if LineOf(t, p) == LastLine(t) then e.pos == p else Lands(t, p, e.pos, 1)
    ensures PressCode(d, 0x102) == Doc(d.text, if d.pos > 0 then d.pos - 1 else 0)
    ensures PressCode(d, 0x103) == Doc(d.text, if d.pos < |d.text| then d.pos + 1 else d.pos)
    ensures var t, e := d.text, PressCode(d, 0x201);
      e.text == t && LineOf(t, e.pos) == LineOf(t, d.pos) && ColOf(t, e.pos) == 0
    ensures var t, e := d.text, PressCode(d, 0x203);
      e.text == t && LineOf(t, e.pos) == LineOf(t, d.pos) && (e.pos == |t| || t[e.pos] == 10)
  {
    var t, p := d.text, d.pos;
    LineOfMonotone(t, p, |t|);
    if LineOf(t, p) > 0 { UpMoves(t, p); }
    if LineOf(t, p) < LastLine(t) { DownMoves(t, p); }
    HomeEnd(d);
  }

  /** The two codes that erase, F4, the line break and the characters; every other code does
      nothing to the text. */
  lemma EditCodes(d: Doc, code: int)
    requires DocOk(d)
    ensures var t, p, e := d.text, d.pos, PressCode(d, code);
      && (code == 8 || code == 127 ==> e == if p == 0 then d else Doc(t[..p - 1] + t[p..], p - 1))
      && (code == 0x204 ==> e == if p == |t| then d else Doc(t[..p] + t[p + 1..], p))
      && (code == 10 || code == 13 ==> e == if |t| >= 4095 then d else Doc(t[..p] + [10] + t[p..], p + 1))
      && (32 <= code < 127 ==> e == if |t| >= 4095 then d else Doc(t[..p] + [code] + t[p..], p + 1))
      && (code !in {0x100, 0x101, 0x102, 0x103, 0x201, 0x203, 0x204, 8, 10, 13, 127} && !(32 <= code < 127) ==> e == d)
  {
  }

  function Typed(w: seq<byte>): (keys: seq<Key>)
    ensures |keys| == |w|
  {
    seq(|w|, i requires 0 <= i < |w| => Type(w[i]))
  }

  /** Typing a word puts it between what was before and what was behind the cursor. */
  lemma {:induction false} TypingInserts(d: Doc, w: seq<byte>)
    requires DocOk(d) && |d.text| + |w| <= 4095
    ensures PressAll(d, Typed(w)) == Doc(d.text[..d.pos] + w + d.text[d.pos..], d.pos + |w|)
    decreases |w|
  {
    var before, after := d.text[..d.pos], d.text[d.pos..];
    if w == [] {
      assert before + w + after == d.text;
    } else {
      var e := Press(d, Type(w[0]));
      assert Typed(w)[0] == Type(w[0]) && Typed(w)[1..] == Typed(w[1..]);
      TypingInserts(e, w[1..]);
      assert e.text[..e.pos] == before + [w[0]] && e.text[e.pos..] == after;
      assert before + [w[0]] + w[1..] == before + w by { assert [w[0]] + w[1..] == w; }
    }
  }

  function PressAll(d: Doc, keys: seq<Key>): (e: Doc)
    requires DocOk(d)
    ensures DocOk(e)
    decreases |keys|
  {
    if keys == [] then d else PressAll(Press(d, keys[0]), keys[1..])
  }

  // ---- rendering ----------------------------------------------------------------------------------

  /** Column `x` of a line: its byte there, or a space behind its end. */
  function Column(t: seq<byte>, ln: int, x: nat): byte {
    if x < LineLength(t, ln) then t[LnStart(t, ln) + x] else SPACE
  }

  /** A line as a row of the window. */
  function RowText(t: seq<byte>, ln: int): (r: seq<byte>)
    ensures |r| == KATE_VCOLS
  {
    seq(KATE_VCOLS, x requires 0 <= x < KATE_VCOLS => Column(t, ln, x))
  }

  /** That is the first 76 bytes of the line, padded with spaces. */
  lemma RowIsLine(t: seq<byte>, ln: int)
    ensures var k := Min(LineLength(t, ln), 76);
      RowText(t, ln) == LineText(t, ln)[..k] + seq(76 - k, _ => 32)
  {
    var k := Min(LineLength(t, ln), KATE_VCOLS);
    var u := LineText(t, ln)[..k] + seq(KATE_VCOLS - k, _ => SPACE);
    forall x | 0 <= x < KATE_VCOLS ensures RowText(t, ln)[x] == u[x] {
      if x < k { assert u[x] == LineText(t, ln)[x]; }
    }
  }

  // ---- the editor -----------------------------------------------------------------------------------

  class Editor {
    const buf: array<byte>
    var len: int
    var pos: int
    var vscroll: int
    var modified: bool

    ghost predicate Valid()
      reads this
    {
      buf.Length == KATE_MAXBUF && 0 <= pos <= len < KATE_MAXBUF && vscroll >= 0
    }

    ghost function Text(): seq<byte>
      requires Valid()
      reads this, buf
    {
      buf[..len]
    }

    ghost function State(): (d: Doc)
      requires Valid()
      reads this, buf
      ensures DocOk(d)
    {
      Doc(buf[..len], pos)
    }

    /** `run_kate` with the bytes of a file, cut to the buffer. */
    constructor (content: seq<byte>)
      ensures Valid() && fresh(buf) && !modified
      ensures State() == Doc(if |content| <= 4095 then content else content[..4095], 0)
    {
      buf := new byte[KATE_MAXBUF](_ => 0);
      var size := if |content| > KATE_MAXBUF - 1 then KATE_MAXBUF - 1 else |content|;
      len, pos, vscroll, modified := size, 0, 0, false;
      new;
      KMemcpy(buf, 0, content[..size]);
    }

    method KateLineOf(p: nat) returns (n: nat)
      requires Valid() && p <= len
      ensures n == LineOf(Text(), p)
    {
      n := 0;
      for i := 0 to p
        invariant n == LineOf(Text(), i)
      {
        if buf[i] == NEWLINE { n := n + 1; }
      }
    }

    method KateColOf(p: nat) returns (c: nat)
      requires Valid() && p <= len
      ensures c == ColOf(Text(), p)
    {
      c := 0;
      for i := 0 to p
        invariant c == ColOf(Text(), i)
      {
        if buf[i] == NEWLINE { c := 0; } else { c := c + 1; }
      }
    }

    method KateLnStart(ln: int) returns (s: nat)
      requires Valid()
      ensures s == LnStart(Text(), ln)
    {
      if ln <= 0 { return 0; }
      var cur := 0;
      for i := 0 to len
        invariant 0 <= cur < ln
        invariant SeekLine(Text(), i, ln - cur) == LnStart(Text(), ln)
      {
        if buf[i] == NEWLINE {
          cur := cur + 1;
          if cur == ln { return i + 1; }
        }
      }
      return len;
    }

    method KateLnEnd(ln: int) returns (e: nat)
      requires Valid()
      ensures e == LnEnd(Text(), ln)
    {
      var s := KateLnStart(ln);
      for i := s to len
        invariant NextNewline(Text(), i) == LnEnd(Text(), ln)
      {
        if buf[i] == NEWLINE { return i; }
      }
      return len;
    }

    method ShiftRight(p: nat)
      requires Valid() && p <= len < KATE_MAXBUF - 1
      modifies buf
      ensures forall k {:trigger buf[k]} :: 0 <= k < buf.Length ==>
        buf[k] == if p < k <= len then old(buf[k - 1]) else old(buf[k])
    {
      var i := len;
      while i > p
        invariant p <= i <= len
        invariant forall k {:trigger buf[k]} :: 0 <= k < buf.Length ==>
          buf[k] == if i < k <= len then old(buf[k - 1]) else old(buf[k])
      {
        buf[i] := buf[i - 1];
        i := i - 1;
      }
    }

    method Insert(c: byte)
      requires Valid()
      modifies this`pos, this`len, this`modified, buf
      ensures Valid() && State() == Press(old(State()), Type(c))
      ensures modified == (old(modified) || len != old(len))
    {
      if len >= KATE_MAXBUF - 1 { return; }
      ghost var t := Text();
      ShiftRight(pos);
      buf[pos] := c;
      pos := pos + 1;
      len := len + 1;
      Inserted(t, buf[..len], pos - 1, c);
      modified := true;
    }

    /** The `kmemcpy` that closes the gap at `p`; whether the byte behind the text is moved along
        makes no difference. */
    method CloseGap(p: nat, count: nat)
      requires p < len < buf.Length && len - p - 1 <= count <= len - p
      modifies buf
      ensures forall k {:trigger buf[k]} :: 0 <= k < len - 1 ==>
        buf[k] == if k < p then old(buf[k]) else old(buf[k + 1])
    {
      KMemmoveDown(buf, p, p + 1, count);
    }

    method Backspace()
      requires Valid()
      modifies this`pos, this`len, this`modified, buf
      ensures Valid() && State() == Press(old(State()), Back)
      ensures modified == (old(modified) || len != old(len))
    {
      if pos == 0 { return; }
      ghost var t := Text();
      pos := pos - 1;
      CloseGap(pos, len - pos);
      len := len - 1;
      Erased(t, buf[..len], pos);
      modified := true;
    }

    method DelKey()
      requires Valid()
      modifies this`len, this`modified, buf
      ensures Valid() && State() == Press(old(State()), Del)
      ensures modified == (old(modified) || len != old(len))
    {
      if pos >= len { return; }
      ghost var t := Text();
      CloseGap(pos, len - pos - 1);
      len := len - 1;
      Erased(t, buf[..len], pos);
      modified := true;
    }

    method MoveUp()
      requires Valid()
      modifies this`pos
      ensures Valid() && State() == Press(old(State()), Up)
    {
      pos := UpTarget();
    }

    /** The place `kate_move_up` computes. */
    method UpTarget() returns (target: nat)
      requires Valid()
      ensures target == UpFrom(Text(), pos)
    {
      var ln := KateLineOf(pos);
      var col := KateColOf(pos);
      if ln == 0 { return pos; }
      var ps := KateLnStart(ln - 1);
      var ep := KateLnEnd(ln - 1);
      var length := ep - ps;
      target := ps + (if col < length then col else length);
    }

    method MoveDown()
      requires Valid()
      modifies this`pos
      ensures Valid() && State() == Press(old(State()), Down)
    {
      pos := DownTarget();
    }

    /** The guard of `kate_move_down`, on the place where the next line would start. */
    method IsLastLine(ns: nat) returns (last: bool)
      requires Valid()
      ensures last <==> ns >= |Text()| && (|Text()| == 0 || Text()[|Text()| - 1] != NEWLINE)
    {
      assert len > 0 ==> Text()[len - 1] == buf[len - 1];
      return ns >= len && (len == 0 || buf[len - 1] != NEWLINE);
    }

    /** The place `kate_move_down` computes. The test on the last byte tells a missing next line
        from an empty last one. */
    method DownTarget() returns (target: nat)
      requires Valid()
      ensures target == DownFrom(Text(), pos)
    {
      DownResult(Text(), pos);
      var ln := KateLineOf(pos);
      var col := KateColOf(pos);
      var ns := KateLnStart(ln + 1);
      var last := IsLastLine(ns);
      if last { return pos; }
      var ne := KateLnEnd(ln + 1);
      var nlen: int := ne - ns;
      if nlen < 0 { nlen := 0; }
      target := ns + (if col < nlen then col else nlen);
    }

    method HomeKey()
      requires Valid()
      modifies this`pos
      ensures Valid() && State() == Press(old(State()), Home)
    {
      var ln := KateLineOf(pos);
      pos := KateLnStart(ln);
    }

    method EndKey()
      requires Valid()
      modifies this`pos
      ensures Valid() && State() == Press(old(State()), End)
    {
      var ln := KateLineOf(pos);
      pos := KateLnEnd(ln);
    }

    /** The editing and movement keys of the loop in `run_kate`. */
    method HandleKey(key: Key)
      requires Valid()
      modifies this`pos, this`len, this`modified, buf
      ensures Valid() && State() == Press(old(State()), key)
      ensures modified == (old(modified) || len != old(len))
    {
      match key
      case Up => MoveUp();
      case Down => MoveDown();
      case Left => if pos > 0 { pos := pos - 1; }
      case Right => if pos < len { pos := pos + 1; }
      case Home => HomeKey();
      case End => EndKey();
      case Back => Backspace();
      case Del => DelKey();
      case Type(c) => Insert(c);
    }

    /** The chain of tests in `run_kate`: the second test for code 127 is never reached. */
    method HandleCode(code: int)
      requires Valid()
      modifies this`pos, this`len, this`modified, buf
      ensures Valid() && State() == PressCode(old(State()), code)
      ensures modified == (old(modified) || len != old(len))
    {
      if code == KEY_ESC { return; }
      if code == KEY_UP { HandleKey(Up); return; }
      if code == KEY_DOWN { HandleKey(Down); return; }
      if code == KEY_LEFT { HandleKey(Left); return; }
      if code == KEY_RIGHT { HandleKey(Right); return; }
      if code == KEY_F1 { HandleKey(Home); return; }
      if code == KEY_F3 { HandleKey(End); return; }
      if code == 8 || code == 127 { HandleKey(Back); return; }
      if code == 127 || code == KEY_F4 { HandleKey(Del); return; }
      if code == 10 || code == 13 { HandleKey(Type(NEWLINE)); return; }
      if 32 <= code < 127 { HandleKey(Type(code)); return; }
    }

    /** The scroll adjustment of `kate_draw`: afterwards the cursor line is one of the rows. */
    method AdjustScroll()
      requires Valid()
      modifies this`vscroll
      ensures Valid() && vscroll <= LineOf(Text(), pos) < vscroll + KATE_VROWS
      ensures var ln := LineOf(Text(), pos);
        vscroll == if ln < old(vscroll) then ln else if ln >= old(vscroll) + 18 then ln - 17 else old(vscroll)
    {
      var ln := KateLineOf(pos);
      if ln < vscroll { vscroll := ln; }
      if ln >= vscroll + KATE_VROWS { vscroll := ln - KATE_VROWS + 1; }
    }

    /** The row scan of `kate_draw`: one running offset through the buffer gives every row the
        text recomputed from its line number, past the last line too. */
    method DrawRows() returns (rows: seq<seq<byte>>)
      requires Valid()
      ensures |rows| == 18
      ensures forall r :: 0 <= r < 18 ==> rows[r] == RowText(Text(), vscroll + r)
    {
      rows := [];
      ghost var t := Text();
      var offset := KateLnStart(vscroll);
      for row := 0 to KATE_VROWS
        invariant |rows| == row && offset == LnStart(t, vscroll + row)
        invariant forall r :: 0 <= r < row ==> rows[r] == RowText(t, vscroll + r)
      {
        var lbuf;
        lbuf, offset := DrawRow(offset, vscroll + row);
        rows := rows + [lbuf];
      }
    }

    /** One round of the scan: the row and the offset of the next line. */
    method DrawRow(offset: nat, ghost ln: nat) returns (lbuf: seq<byte>, next: nat)
      requires Valid() && offset == LnStart(Text(), ln)
      ensures lbuf == RowText(Text(), ln) && next == LnStart(Text(), ln + 1)
    {
      var bi;
      lbuf, bi := CopyRow(offset, ln);
      next := SkipRow(bi, ln);
    }

    /** The first inner loop: at most 76 bytes of the line into a blank buffer. */
    method CopyRow(offset: nat, ghost ln: nat) returns (lbuf: seq<byte>, bi: nat)
      requires Valid() && offset == LnStart(Text(), ln)
      ensures lbuf == RowText(Text(), ln) && offset <= bi <= LnEnd(Text(), ln)
    {
      ghost var t := Text();
      lbuf := seq(KATE_VCOLS, _ => SPACE);
      var nc := 0;
      bi := offset;
      while bi < len && buf[bi] != NEWLINE && nc < KATE_VCOLS
        invariant 0 <= nc <= KATE_VCOLS == |lbuf| && bi == offset + nc <= LnEnd(t, ln)
        invariant forall x :: 0 <= x < nc ==> lbuf[x] == t[offset + x]
        invariant forall x :: nc <= x < KATE_VCOLS ==> lbuf[x] == SPACE
        decreases len - bi
      {
        assert t[bi] == buf[bi];
        lbuf := lbuf[nc := buf[bi]];
        nc := nc + 1;
        bi := bi + 1;
      }
      assert bi < LnEnd(t, ln) ==> t[bi] == buf[bi];
      assert nc == Min(LineLength(t, ln), KATE_VCOLS);
    }

    /** The rest of the line and its newline. */
    method SkipRow(from: nat, ghost ln: nat) returns (bi: nat)
      requires Valid() && LnStart(Text(), ln) <= from <= LnEnd(Text(), ln)
      ensures bi == LnStart(Text(), ln + 1)
    {
      ghost var t := Text();
      NextLineStart(t, ln);
      bi := from;
      while bi < len && buf[bi] != NEWLINE
        invariant from <= bi <= LnEnd(t, ln)
        decreases len - bi
      {
        assert t[bi] == buf[bi];
        bi := bi + 1;
      }
      if bi < len {
        assert t[bi] == buf[bi];
        bi := bi + 1;
      }
    }
  }

  /** What `kate_move_down` computes: its guard tells whether there is a next line, and the
      empty line behind a final newline is one. */
  lemma DownResult(t: seq<byte>, p: nat)
    requires p <= |t|
    ensures var ns, ne := LnStart(t, LineOf(t, p) + 1), LnEnd(t, LineOf(t, p) + 1);
      DownFrom(t, p)
      == if ns >= |t| && (|t| == 0 || t[|t| - 1] != NEWLINE) then p else ns + Min(ColOf(t, p), ne - ns)
  {
    PositionIsLinePlusColumn(t, p);
    NextLineStart(t, LineOf(t, p));
    LineOfMonotone(t, p, |t|);
  }
}
