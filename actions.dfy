/** Actions on a board (`minesweeper/actions.py`, and its identical copy
    `actions.py`): a type and, for every type but surrender, the position it acts on.
    The constructor rejects the missing position `(-1, -1)` for a type that needs
    one; `repr` prints the type's text, followed by the position when the type has
    one, and tells apart every two actions that differ in what it prints. */
module Actions {
  import opened Errors
  import opened Matrices

  datatype ActionType = Select | Flag | Chord | Superchord | Surrender
  {
    /** `has_pos`: every type acts on a position except surrender. */
    predicate HasPos()
    {
      this != Surrender
    }
  }

  /** `ActionType.__repr__`: the text of each type. (The `Unknown action` fallback of
      the source cannot be reached: those are all the types.) */
  function TypeRepr(t: ActionType): (s: string)
    ensures |s| >= 9
  {
    match t
    case Select => "Select cell at"
    case Flag => "Flag cell at"
    case Chord => "Chord starting with cell at"
    case Superchord => "Superchord starting with cell at"
    case Surrender => "Surrender"
  }

  /** The text of a type with a position ends with `cell at`; the surrender reads
      `Surrender`. */
  lemma TypeReprShape(t: ActionType)
    ensures t.HasPos() ==> TypeRepr(t)[|TypeRepr(t)| - 7..] == "cell at"
    ensures !t.HasPos() ==> TypeRepr(t) == "Surrender"
  {
  }

  /** The third character of a type's text names the type. */
  lemma TypeReprThird(t: ActionType, u: ActionType)
    requires TypeRepr(t)[2] == TypeRepr(u)[2]
    ensures t == u
  {
    ThirdNamesType(t);
    ThirdNamesType(u);
  }

  /** The type whose text has `c` for its third character. */
  function TypeOfThird(c: char): ActionType
  {
    match c
    case 'l' => Select
    case 'a' => Flag
    case 'o' => Chord
    case 'p' => Superchord
    case _ => Surrender
  }

  lemma ThirdNamesType(t: ActionType)
    ensures TypeOfThird(TypeRepr(t)[2]) == t
  {
  }

  /** An action: its type and the position it acts on (`(-1, -1)` when none is
      given). */
  datatype Action = Action(kind: ActionType, pos: Pos)

  /** `Action(action_type, pos)`: a `ValueError` exactly when the type needs a
      position and the position is the default `(-1, -1)`; otherwise the action with
      the type and position given. */
  function NewAction(kind: ActionType, pos: Pos): (r: Result<Action>)
    ensures r.Err? <==> kind.HasPos() && pos == (-1, -1)
    ensures r.Ok? ==> r.value.kind == kind && r.value.pos == pos
  {
    if kind.HasPos() && pos == (-1, -1) then Err("Certain action types require the pos(ition) argument")
    else Ok(Action(kind, pos))
  }

  /** `Action.select(pos)`. */
  function SelectAt(pos: Pos): (r: Result<Action>)
    ensures r.Err? <==> pos == (-1, -1)
    ensures r.Ok? ==> r.value == Action(Select, pos)
  {
    NewAction(Select, pos)
  }

  /** `Action.flag(pos)`. */
  function FlagAt(pos: Pos): (r: Result<Action>)
    ensures r.Err? <==> pos == (-1, -1)
    ensures r.Ok? ==> r.value == Action(Flag, pos)
  {
    NewAction(Flag, pos)
  }

  /** `Action.chord(pos)`. */
  function ChordAt(pos: Pos): (r: Result<Action>)
    ensures r.Err? <==> pos == (-1, -1)
    ensures r.Ok? ==> r.value == Action(Chord, pos)
  {
    NewAction(Chord, pos)
  }

  /** `Action.superchord(pos)`. */
  function SuperchordAt(pos: Pos): (r: Result<Action>)
    ensures r.Err? <==> pos == (-1, -1)
    ensures r.Ok? ==> r.value == Action(Superchord, pos)
  {
    NewAction(Superchord, pos)
  }

  /** `Action.surrender()`: never fails; the position is the default. */
  function SurrenderNow(): (r: Result<Action>)
    ensures r == Ok(Action(Surrender, (-1, -1)))
  {
    NewAction(Surrender, (-1, -1))
  }

  /** The decimal digit `d`. */
  function DigitChar(d: nat): (c: char)
    requires d < 10
    ensures '0' <= c <= '9' && (c as int) - ('0' as int) == d
  {
    ('0' as int + d) as char
  }

  predicate IsDigit(c: char)
  {
    '0' <= c <= '9'
  }

  /** `str(n)` of a natural number: its decimal digits, most significant first. */
  function Digits(n: nat): (s: string)
    ensures |s| > 0 && forall k :: 0 <= k < |s| ==> IsDigit(s[k])
    decreases n
  {
    if n < 10 then [DigitChar(n)] else Digits(n / 10) + [DigitChar(n % 10)]
  }

  /** The value of a decimal digit. */
  function DigitValue(c: char): (d: nat)
    requires IsDigit(c)
    ensures d < 10 && DigitChar(d) == c
  {
    (c as int) - ('0' as int)
  }

  /** The number a string of decimal digits denotes. */
  function ValueOf(s: string): nat
    requires forall k :: 0 <= k < |s| ==> IsDigit(s[k])
  {
    if |s| == 0 then 0 else ValueOf(s[..|s| - 1]) * 10 + DigitValue(s[|s| - 1])
  }

  /** Reading the digits of `n` gives `n` back. */
  lemma {:induction false} DigitsRoundTrip(n: nat)
    ensures ValueOf(Digits(n)) == n
    decreases n
  {
    if n >= 10 {
      DigitsRoundTrip(n / 10);
      var s := Digits(n);
      assert s[..|s| - 1] == Digits(n / 10);
    }
  }

  /** `str(n)` of an integer: a minus sign before the digits of a negative number. */
  function IntText(n: int): (s: string)
    ensures |s| > 0 && forall k :: 0 <= k < |s| ==> s[k] != ',' && s[k] != ')'
    ensures s[0] == '-' <==> n < 0
  {
    if n < 0 then "-" + Digits(-n) else Digits(n)
  }

  /** Two integers print alike only when they are equal. */
  lemma IntTextInjective(a: int, b: int)
    requires IntText(a) == IntText(b)
    ensures a == b
  {
    if a < 0 {
      assert b < 0;
      assert Digits(-a) == IntText(a)[1..] == Digits(-b);
      DigitsRoundTrip(-a);
      DigitsRoundTrip(-b);
    } else {
      assert b >= 0;
      DigitsRoundTrip(a);
      DigitsRoundTrip(b);
    }
  }

  /** `str(pos)` of a pair: `(x, y)`. */
  function PosText(p: Pos): (s: string)
    ensures |s| == |IntText(p.0)| + |IntText(p.1)| + 4
    ensures s[0] == '(' && s[1 + |IntText(p.0)|] == ',' && s[|s| - 1] == ')'
  {
    "(" + IntText(p.0) + ", " + IntText(p.1) + ")"
  }

  /** The index of the first comma of `s`, or `|s|` when it has none. */
  function CommaIndex(s: string): (i: nat)
    ensures i <= |s|
  {
    if |s| == 0 then 0 else if s[0] == ',' then 0 else 1 + CommaIndex(s[1..])
  }

  /** A comma right after a text with no comma is the first one. */
  lemma {:induction false} CommaIndexAfter(x: string, r: string)
    requires forall k :: 0 <= k < |x| ==> x[k] != ','
    requires |r| > 0 && r[0] == ','
    ensures CommaIndex(x + r) == |x|
  {
    if |x| == 0 {
      assert x + r == r;
    } else {
      assert (x + r)[1..] == x[1..] + r;
      CommaIndexAfter(x[1..], r);
    }
  }

  /** Where the parts of a printed pair sit in its text. */
  lemma PairTextParts(x: string, y: string)
    ensures var s := "(" + x + ", " + y + ")";
            |s| == |x| + |y| + 4 && s[1..] == x + (", " + y + ")")
            && s[1..1 + |x|] == x && s[3 + |x|..|s| - 1] == y
  {
  }

  /** Two pairs print alike only when they are equal: the first comma ends the first
      number, and neither number holds a comma. */
  lemma PosTextInjective(p: Pos, q: Pos)
    requires PosText(p) == PosText(q)
    ensures p == q
  {
    var x1, y1 := IntText(p.0), IntText(p.1);
    var x2, y2 := IntText(q.0), IntText(q.1);
    var s := PosText(p);
    PairTextParts(x1, y1);
    PairTextParts(x2, y2);
    assert s[1..] == x1 + (", " + y1 + ")") == x2 + (", " + y2 + ")");
    CommaIndexAfter(x1, ", " + y1 + ")");
    CommaIndexAfter(x2, ", " + y2 + ")");
    assert x1 == x2;
    assert y1 == s[3 + |x1|..|s| - 1] == y2;
    IntTextInjective(p.0, q.0);
    IntTextInjective(p.1, q.1);
  }

  /** `Action.__repr__`: the type's text, then a space and the position when the type
      has one. Two actions print alike exactly when they have the same type and,
      for a type with a position, the same position. */
  function Repr(a: Action): (s: string)
    ensures |s| >= |TypeRepr(a.kind)| && s[..|TypeRepr(a.kind)|] == TypeRepr(a.kind)
    ensures !a.kind.HasPos() ==> s == TypeRepr(a.kind)
    ensures a.kind.HasPos() ==> s[|TypeRepr(a.kind)|..] == " " + PosText(a.pos)
  {
    TypeRepr(a.kind) + (if a.kind.HasPos() then " " + PosText(a.pos) else "")
  }

  /** `repr` loses nothing but the unused position of a surrender. */
  lemma ReprInjective(a: Action, b: Action)
    ensures Repr(a) == Repr(b) <==> a.kind == b.kind && (a.kind.HasPos() ==> a.pos == b.pos)
  {
    if Repr(a) == Repr(b) {
      var s := Repr(a);
      assert TypeRepr(a.kind)[2] == s[2] == TypeRepr(b.kind)[2];
      TypeReprThird(a.kind, b.kind);
      if a.kind.HasPos() {
        var n := |TypeRepr(a.kind)|;
        assert " " + PosText(a.pos) == s[n..] == " " + PosText(b.pos);
        assert PosText(a.pos) == (" " + PosText(a.pos))[1..];
        assert PosText(b.pos) == (" " + PosText(b.pos))[1..];
        PosTextInjective(a.pos, b.pos);
      }
    }
  }
}
