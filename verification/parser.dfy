/** Parsing the text of a cell into a value: missing markers, booleans,
    numbers and the printed form of an interval. The conversion of a text
    to a number is a parameter: a partial function that either yields a
    real or refuses the text. */
module Parser {
  import opened Outcomes
  import opened Values

  /** ASCII lower-casing of one character. */
  function LowerChar(c: char): char {
    if 'A' <= c <= 'Z' then (c as int + 32) as char else c
  }

  function Lower(s: string): (r: string)
    ensures |r| == |s| && forall k :: 0 <= k < |s| ==> r[k] == LowerChar(s[k])
  {
    seq(|s|, k requires 0 <= k < |s| => LowerChar(s[k]))
  }

  /** Texts that stand for a missing value. */
  predicate MissingText(val: string) {
    val == "" || val == "*" || Lower(val) == "nan"
  }

  /** Texts handed to the interval parser. */
  predicate IntervalText(val: string) {
    |val| > 0 && (val[0] == '(' || val[0] == '[' || val[0] == ']')
  }

  predicate BoolText(val: string) {
    Lower(val) == "true" || Lower(val) == "false"
  }

  /** The first comma of `val` at or after position `i`. */
  function FirstComma(val: string, i: nat): (c: Option<nat>)
    requires i <= |val|
    ensures c.Some? ==> i <= c.value < |val| && val[c.value] == ','
    ensures c.Some? ==> forall k :: i <= k < c.value ==> val[k] != ','
    ensures c.None? ==> forall k :: i <= k < |val| ==> val[k] != ','
    decreases |val| - i
  {
    if i == |val| then None else if val[i] == ',' then Some(i) else FirstComma(val, i + 1)
  }

  /** The closedness named by the two bracket tests. */
  function ClosedOf(leftClosed: bool, rightClosed: bool): (c: Closed)
    ensures IsClosed(Interval(0.0, 0.0, c), LeftSide) == leftClosed
    ensures IsClosed(Interval(0.0, 0.0, c), RightSide) == rightClosed
  {
    if leftClosed && rightClosed then Both
    else if leftClosed then LeftOnly
    else if rightClosed then RightOnly
    else Neither
  }

  /** The shape of an accepted interval text: bracket, left text without a
      comma, a comma with or without one following space, right text,
      bracket. Where the comma has no space after it, the right text cannot
      start with one, so the split is unique. */
  predicate Bracketed(val: string, lt: string, rt: string) {
    && |val| >= 2 && ',' !in lt
    && (|| val == [val[0]] + lt + ", " + rt + [val[|val| - 1]]
        || (val == [val[0]] + lt + "," + rt + [val[|val| - 1]] && (rt == [] || rt[0] != ' ')))
  }

  /** A text cut at positions `c` and `start` between its two end characters. */
  lemma Reassemble(val: string, c: nat, start: nat)
    requires 1 <= c < start <= |val| - 1
    ensures val == [val[0]] + val[1..c] + val[c..start] + val[start..|val| - 1] + [val[|val| - 1]]
  {
    assert val[..|val| - 1] + [val[|val| - 1]] == val;
    assert val[..start] + val[start..|val| - 1] == val[..|val| - 1];
    assert val[..c] + val[c..start] == val[..start];
    assert [val[0]] + val[1..c] == val[..c];
  }

  /** The two bound texts of an interval text: from after the opening
      bracket up to the first comma, and from after the comma (and one
      space, if there is one) up to the closing bracket. */
  function BoundTexts(val: string): (b: Option<(string, string)>)
    requires |val| >= 2 && val[|val| - 1] in "])["
    ensures b.None? <==> forall k :: 1 <= k < |val| ==> val[k] != ','
    ensures b.Some? ==> Bracketed(val, b.value.0, b.value.1)
  {
    match FirstComma(val, 1)
    case None => None
    case Some(c) =>
      var start := if val[c + 1] == ' ' then c + 2 else c + 1;
      var lt := val[1..c];
      assert ',' !in lt by {
        forall k | 0 <= k < |lt|
          ensures lt[k] != ','
        {
          assert lt[k] == val[k + 1];
        }
      }
      Reassemble(val, c, start);
      if start == c + 2 then
        assert val[c..start] == ", ";
        Some((lt, val[start..|val| - 1]))
      else
        assert val[c..start] == ",";
        Some((lt, val[start..|val| - 1]))
  }

  /** A text of the bracketed shape splits into exactly those bound texts. */
  lemma BoundTextsOfBracketed(val: string, lt: string, rt: string)
    requires Bracketed(val, lt, rt) && val[|val| - 1] in "])["
    ensures BoundTexts(val) == Some((lt, rt))
  {
    var c := 1 + |lt|;
    assert val[c] == ',';
    forall k | 1 <= k < c
      ensures val[k] != ','
    {
      assert val[k] == lt[k - 1];
    }
    FirstCommaIs(val, 1, c);
    assert val[1..c] == lt;
    if val == [val[0]] + lt + ", " + rt + [val[|val| - 1]] {
      assert val[c + 1] == ' ';
      assert val[c + 2..|val| - 1] == rt;
    } else {
      assert val[c + 1..|val| - 1] == rt;
      if rt != [] {
        assert val[c + 1] == rt[0];
      }
    }
  }

  /** Parses the printed form of an interval, `[a, b]`, `(a, b]`, `]a, b[`
      and so on: an opening bracket (`[` closed, `(` or `]` open), the left
      bound up to the first comma, an optional single space, the right bound
      and a closing bracket (`]` closed, `)` or `[` open). */
  function ParseInterval(val: string, float: string -> Option<real>): (r: Result<Value>)
    ensures |val| == 0 ==> r == Err(IndexError)
    ensures |val| > 0 && !IntervalText(val) ==> r == Err(ValueError)
    ensures IntervalText(val) && !(val[|val| - 1] in "])[") ==> r == Err(ValueError)
    ensures val == "[" ==> r == Err(IndexError)
    ensures |val| >= 2 && IntervalText(val) && ',' !in val ==> r == Err(ValueError)
    ensures r.Err? ==> r.error != TypeError
    ensures r.Err? && |val| >= 2 ==> r.error == ValueError
    ensures r.Ok? ==> && r.value.Iv? && |val| >= 2
                      && (IsClosed(r.value.iv, LeftSide) <==> val[0] == '[')
                      && (IsClosed(r.value.iv, RightSide) <==> val[|val| - 1] == ']')
  {
    if |val| == 0 then Err(IndexError)
    else
      var leftClosed := val[0] == '[';
      if !leftClosed && !(val[0] == '(' || val[0] == ']') then Err(ValueError)
      else
        var rightClosed := val[|val| - 1] == ']';
        if !rightClosed && !(val[|val| - 1] == ')' || val[|val| - 1] == '[') then Err(ValueError)
        else if |val| == 1 then Err(IndexError)
        else match BoundTexts(val)
          case None => Err(ValueError)
          case Some((lt, rt)) =>
            match float(lt)
              case None => Err(ValueError)
              case Some(left) =>
                match float(rt)
                  case None => Err(ValueError)
                  case Some(right) =>
                    if left > right then Err(ValueError)
                    else
                      var iv := Interval(left, right, ClosedOf(leftClosed, rightClosed));
                      assert IsClosed(iv, LeftSide) == leftClosed && IsClosed(iv, RightSide) == rightClosed;
                      Ok(Iv(iv))
  }

  /** Parses a cell text: missing markers, intervals, booleans (any case),
      then numbers; anything else is refused. */
  function ParseVal(val: string, float: string -> Option<real>): (r: Result<Value>)
    ensures r == Ok(Missing) <==> MissingText(val)
    ensures IntervalText(val) ==> r == ParseInterval(val, float)
    ensures r == Ok(Bool(true)) <==> Lower(val) == "true"
    ensures r == Ok(Bool(false)) <==> Lower(val) == "false"
    ensures r.Ok? && r.value.Num? <==> !MissingText(val) && !IntervalText(val) && !BoolText(val) && float(val).Some?
    ensures r.Ok? && r.value.Num? ==> float(val) == Some(r.value.x)
    ensures r.Ok? ==> !r.value.Text?
    ensures r.Err? && !IntervalText(val) ==> r.error == ValueError
  {
    if MissingText(val) then Ok(Missing)
    else if IntervalText(val) then
      assert Lower(val)[0] == val[0];
      ParseInterval(val, float)
    else if Lower(val) == "false" then Ok(Bool(false))
    else if Lower(val) == "true" then Ok(Bool(true))
    else match float(val)
      case Some(x) => Ok(Num(x))
      case None => Err(ValueError)
  }

  /** The text pandas prints for an interval, with the bounds written as the
      given texts. */
  function Render(iv: ValidInterval, lt: string, rt: string): string {
    [if IsClosed(iv, LeftSide) then '[' else '('] + lt + ", " + rt + [if IsClosed(iv, RightSide) then ']' else ')']
  }

  lemma {:induction false} FirstCommaIs(val: string, i: nat, c: nat)
    requires i <= c < |val| && val[c] == ','
    requires forall k :: i <= k < c ==> val[k] != ','
    ensures FirstComma(val, i) == Some(c)
    decreases c - i
  {
    if i < c {
      FirstCommaIs(val, i + 1, c);
    }
  }

  /** Every printed interval parses back to itself, as a cell text too. */
  lemma ParseRender(iv: ValidInterval, lt: string, rt: string, float: string -> Option<real>)
    requires ',' !in lt && float(lt) == Some(iv.left) && float(rt) == Some(iv.right)
    ensures ParseInterval(Render(iv, lt, rt), float) == Ok(Iv(iv))
    ensures ParseVal(Render(iv, lt, rt), float) == Ok(Iv(iv))
  {
    var val := Render(iv, lt, rt);
    assert val == [val[0]] + lt + ", " + rt + [val[|val| - 1]];
    BoundTextsOfBracketed(val, lt, rt);
    assert ClosedOf(IsClosed(iv, LeftSide), IsClosed(iv, RightSide)) == iv.closed;
    assert !MissingText(val) by {
      assert Lower(val)[0] == val[0];
    }
  }

  /** Every accepted interval text has the bracketed shape, with the bounds
      read from its two parts. */
  lemma ParseIntervalShape(val: string, float: string -> Option<real>)
    requires ParseInterval(val, float).Ok?
    ensures var iv := ParseInterval(val, float).value.iv;
            exists lt, rt :: Bracketed(val, lt, rt) && float(lt) == Some(iv.left) && float(rt) == Some(iv.right)
  {
    var (lt, rt) := BoundTexts(val).value;
    assert Bracketed(val, lt, rt);
  }

  /** For a text of the bracketed shape, bounds out of order are refused and
      bounds in order are accepted as they are. */
  lemma ParseIntervalOrdered(val: string, float: string -> Option<real>, lt: string, rt: string, a: real, b: real)
    requires IntervalText(val) && val[|val| - 1] in "])[" && Bracketed(val, lt, rt)
    requires float(lt) == Some(a) && float(rt) == Some(b)
    ensures a > b ==> ParseInterval(val, float) == Err(ValueError)
    ensures a <= b ==> ParseInterval(val, float).Ok? && ParseInterval(val, float).value.iv.left == a
                                                    && ParseInterval(val, float).value.iv.right == b
  {
    BoundTextsOfBracketed(val, lt, rt);
  }
}
