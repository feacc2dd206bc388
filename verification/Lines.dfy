/** Line and column geometry of a flat text, as the Kate editor of kernel/desktop.c computes it. */
module Lines {
  import opened Bytes

  /** `kate_lineof`: newlines before `p`. */
  function LineOf(t: seq<byte>, p: nat): nat
    requires p <= |t|
  {
    if p == 0 then 0 else LineOf(t, p - 1) + (if t[p - 1] == NEWLINE then 1 else 0)
  }

  /** `kate_colof`: characters since the last newline before `p`. */
  function ColOf(t: seq<byte>, p: nat): (c: nat)
    requires p <= |t|
    ensures c <= p
  {
    if p == 0 || t[p - 1] == NEWLINE then 0 else ColOf(t, p - 1) + 1
  }

  /** Just behind the `need`-th newline from `i` on, or the end of the text. */
  function SeekLine(t: seq<byte>, i: nat, need: nat): (s: nat)
    requires i <= |t|
    ensures i <= s <= |t|
    decreases |t| - i
  {
    if i == |t| then i
    else if t[i] != NEWLINE then SeekLine(t, i + 1, need)
    else if need <= 1 then i + 1
    else SeekLine(t, i + 1, need - 1)
  }

  /** `kate_lnstart` */
  function LnStart(t: seq<byte>, ln: int): (s: nat)
    ensures s <= |t|
  {
    if ln <= 0 then 0 else SeekLine(t, 0, ln)
  }

  /** The first newline from `s` on, or the end of the text. */
  function NextNewline(t: seq<byte>, s: nat): (e: nat)
    requires s <= |t|
    ensures s <= e <= |t| && (e < |t| ==> t[e] == NEWLINE)
    ensures forall k :: s <= k < e ==> t[k] != NEWLINE
    decreases |t| - s
  {
    if s == |t| || t[s] == NEWLINE then s else NextNewline(t, s + 1)
  }

  /** `kate_lnend` */
  function LnEnd(t: seq<byte>, ln: int): (e: nat)
    ensures LnStart(t, ln) <= e <= |t|
  {
    NextNewline(t, LnStart(t, ln))
  }

  /** The number of the last line. */
  function LastLine(t: seq<byte>): nat {
    LineOf(t, |t|)
  }

  function LineText(t: seq<byte>, ln: int): seq<byte> {
    t[LnStart(t, ln)..LnEnd(t, ln)]
  }

  // ---- lines and columns are coordinates --------------------------------------------------------

  lemma {:induction false} LineOfMonotone(t: seq<byte>, p: nat, q: nat)
    requires p <= q <= |t|
    ensures LineOf(t, p) <= LineOf(t, q)
    ensures (forall k :: p <= k < q ==> t[k] != NEWLINE) <==> LineOf(t, p) == LineOf(t, q)
  {
    if p < q { LineOfMonotone(t, p, q - 1); }
  }

  /** Where the line of `p` begins. */
  lemma {:induction false} LineBegin(t: seq<byte>, p: nat)
    requires p <= |t|
    ensures var s := p - ColOf(t, p);
      && (s == 0 || t[s - 1] == NEWLINE) && LineOf(t, s) == LineOf(t, p)
      && forall k :: s <= k < p ==> t[k] != NEWLINE
  {
    if p > 0 && t[p - 1] != NEWLINE { LineBegin(t, p - 1); }
  }

  lemma {:induction false} ColInLine(t: seq<byte>, s: nat, p: nat)
    requires s <= p <= |t| && (s == 0 || t[s - 1] == NEWLINE)
    requires forall k :: s <= k < p ==> t[k] != NEWLINE
    ensures ColOf(t, p) == p - s
  {
    if s < p { ColInLine(t, s, p - 1); }
  }

  lemma {:induction false} SeekFinds(t: seq<byte>, i: nat, q: nat)
    requires i < q <= |t| && t[q - 1] == NEWLINE
    ensures LineOf(t, q) > LineOf(t, i)
    ensures SeekLine(t, i, LineOf(t, q) - LineOf(t, i)) == q
    decreases q - i
  {
    LineOfMonotone(t, i, q);
    LineOfMonotone(t, i + 1, q);
    if i + 1 < q {
      SeekFinds(t, i + 1, q);
    }
  }

  lemma {:induction false} SeekFails(t: seq<byte>, i: nat, need: nat)
    requires i <= |t| && need > LastLine(t) - LineOf(t, i)
    ensures SeekLine(t, i, need) == |t|
    decreases |t| - i
  {
    if i < |t| {
      LineOfMonotone(t, i + 1, |t|);
      if t[i] == NEWLINE && need > 1 { SeekFails(t, i + 1, need - 1); }
      if t[i] != NEWLINE { SeekFails(t, i + 1, need); }
    }
  }

  /** The start of an existing line: the place on it with column 0. */
  lemma LnStartExact(t: seq<byte>, ln: nat, s: nat)
    requires s <= |t| && (s == 0 || t[s - 1] == NEWLINE) && LineOf(t, s) == ln
    ensures LnStart(t, ln) == s
  {
    if s > 0 { SeekFinds(t, 0, s); }
  }

  /** Every position is its line's start plus its column, and not past the line's end. */
  lemma PositionIsLinePlusColumn(t: seq<byte>, p: nat)
    requires p <= |t|
    ensures p == LnStart(t, LineOf(t, p)) + ColOf(t, p) <= LnEnd(t, LineOf(t, p))
    ensures LineOf(t, p) <= LastLine(t)
  {
    var s := p - ColOf(t, p);
    LineBegin(t, p);
    LnStartExact(t, LineOf(t, p), s);
    LineOfMonotone(t, p, |t|);
  }

  lemma {:induction false} LineExists(t: seq<byte>, p: nat, ln: nat) returns (s: nat)
    requires p <= |t| && ln <= LineOf(t, p)
    ensures s <= |t| && (s == 0 || t[s - 1] == NEWLINE) && LineOf(t, s) == ln
  {
    if p == 0 || (t[p - 1] == NEWLINE && LineOf(t, p) == ln) {
      s := p;
    } else {
      s := LineExists(t, p - 1, ln);
    }
  }

  /** Every line and every column on it is a position: the converse. */
  lemma LinePlusColumnIsPosition(t: seq<byte>, ln: nat, col: nat)
    requires ln <= LastLine(t) && LnStart(t, ln) + col <= LnEnd(t, ln)
    ensures LineOf(t, LnStart(t, ln) + col) == ln && ColOf(t, LnStart(t, ln) + col) == col
  {
    var s := LineExists(t, |t|, ln);
    LnStartExact(t, ln, s);
    LineOfMonotone(t, s, s + col);
    ColInLine(t, s, s + col);
  }

  ghost function Newlines(t: seq<byte>, p: nat): set<nat>
    requires p <= |t|
  {
    set k: nat | k < p && t[k] == 10
  }

  lemma {:induction false} NewlinesCounted(t: seq<byte>, p: nat)
    requires p <= |t|
    ensures LineOf(t, p) == |Newlines(t, p)|
  {
    if p > 0 {
      NewlinesCounted(t, p - 1);
      var r := Newlines(t, p - 1);
      assert Newlines(t, p) == if t[p - 1] == 10 then r + {p - 1} else r;
    }
  }

  /** The line number counts the bytes 10 before the position, and the column the bytes behind the
      last of them. */
  lemma LineAndColumnCount(t: seq<byte>, p: nat)
    requires p <= |t|
    ensures LineOf(t, p) == |Newlines(t, p)|
    ensures var s := p - ColOf(t, p);
      s >= 0 && (s == 0 || t[s - 1] == 10) && forall k :: s <= k < p ==> t[k] != 10
  {
    NewlinesCounted(t, p);
    LineBegin(t, p);
  }

  // ---- the lines make up the text ---------------------------------------------------------------

  /** Past a line comes the next one; past the last line only the end of the text. */
  lemma NextLineStart(t: seq<byte>, ln: nat)
    ensures LnStart(t, ln + 1) == if LnEnd(t, ln) < |t| then LnEnd(t, ln) + 1 else |t|
    ensures LnEnd(t, ln) < |t| <==> ln < LastLine(t)
  {
    if ln <= LastLine(t) {
      var s := LineExists(t, |t|, ln);
      LnStartExact(t, ln, s);
      var e := LnEnd(t, ln);
      LineOfMonotone(t, s, e);
      if e < |t| {
        LnStartExact(t, ln + 1, e + 1);
        LineOfMonotone(t, e + 1, |t|);
      } else {
        SeekFails(t, 0, ln + 1);
      }
    } else {
      SeekFails(t, 0, ln);
      SeekFails(t, 0, ln + 1);
    }
  }

  function JoinBelow(t: seq<byte>, n: nat): seq<byte> {
    if n == 0 then [] else JoinBelow(t, n - 1) + LineText(t, n - 1) + [NEWLINE]
  }

  lemma PrefixPieces(t: seq<byte>, s: nat, e: nat)
    requires s <= e < |t|
    ensures t[..e + 1] == t[..s] + t[s..e] + [t[e]]
  {
  }

  lemma {:induction false} JoinIsPrefix(t: seq<byte>, n: nat)
    requires n <= LastLine(t)
    ensures JoinBelow(t, n) == t[..LnStart(t, n)]
  {
    if n > 0 {
      JoinIsPrefix(t, n - 1);
      NextLineStart(t, n - 1);
      var s, e := LnStart(t, n - 1), LnEnd(t, n - 1);
      PrefixPieces(t, s, e);
    }
  }

  /** The lines, none with a newline in it, joined by newlines are the text. */
  lemma LinesMakeText(t: seq<byte>)
    ensures t == JoinBelow(t, LastLine(t)) + LineText(t, LastLine(t))
    ensures forall ln: nat :: NEWLINE !in LineText(t, ln)
  {
    JoinIsPrefix(t, LastLine(t));
    NextLineStart(t, LastLine(t));
    var s := LnStart(t, LastLine(t));
    assert t == t[..s] + t[s..];
  }
}
