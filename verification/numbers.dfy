/** Reading numbers out of sheet cells, and the two percentage helpers.
    Cells are modelled as unsigned decimal integers surrounded by optional
    white space; signs, fractions, exponents and hexadecimal are not modelled. */
module Numbers {
  import opened Wrappers
  import opened Strings

  /** JavaScript's `Number(s)` on a string: white space is trimmed, an empty
      remainder is 0, a digit string is its value, anything else is NaN (`None`). */
  function JsNumber(s: string): (r: Option<nat>)
    ensures IsBlank(s) ==> r == Some(0)
    ensures r.Some? <==> AllDigits(Trim(s))
  {
    TrimEmptyIffBlank(s);
    var t := Trim(s);
    if AllDigits(t) then Some(DigitsValue(t)) else None
  }

  /** `Number(String(n))` gives `n` back. */
  lemma JsNumberOfPrinted(n: nat)
    ensures JsNumber(NatToString(n)) == Some(n)
  {
    var s := NatToString(n);
    assert !IsSpace(s[0]) && !IsSpace(s[|s| - 1]);
    TrimIdentity(s);
  }

  /** `Number(v) || 0`: undefined, NaN and 0 all become 0. */
  function NumberOrZero(v: Option<string>): (r: nat)
    ensures v.None? ==> r == 0
    ensures v.Some? && JsNumber(v.value).Some? ==> r == JsNumber(v.value).value
    ensures v.Some? && JsNumber(v.value).None? ==> r == 0
  {
    match v
    case None => 0
    case Some(s) => JsNumber(s).GetOr(0)
  }

  /** The decimal digits `parseFloat` consumes after leading white space. */
  function LeadingDigits(s: string): (d: string)
    ensures AllDigits(d) && |d| <= |s| && d == s[..|d|]
    ensures |d| == |s| || !IsDigit(s[|d|])
  {
    if |s| > 0 && IsDigit(s[0]) then [s[0]] + LeadingDigits(s[1..]) else ""
  }

  /** `toNum` (js/app.js): `parseFloat(v)` when finite, else 0. `parseFloat`
      skips leading white space and reads the longest numeric prefix; a text
      with no leading digit is NaN, which `toNum` turns into 0. */
  function ToNum(v: string): (r: nat)
    ensures |TrimStart(v)| == 0 || !IsDigit(TrimStart(v)[0]) ==> r == 0
  {
    DigitsValue(LeadingDigits(TrimStart(v)))
  }

  /** Wherever `Number` gives a value, `toNum` gives the same one; unlike
      `Number`, `toNum` also reads the numeric prefix of `"12abc"`. */
  lemma ToNumAgreesWithNumber(v: string)
    requires JsNumber(v).Some?
    ensures ToNum(v) == JsNumber(v).value
  {
    var t := TrimStart(v);
    var u := Trim(v);
    assert u == t[..|u|];
    var d := LeadingDigits(t);
    assert forall k :: |u| <= k < |t| ==> IsSpace(t[k]);
    LeadingDigitsOfDigits(u, t);
  }

  lemma {:induction false} LeadingDigitsOfDigits(u: string, t: string)
    requires |u| <= |t| && AllDigits(u) && u == t[..|u|]
    requires |u| == |t| || IsSpace(t[|u|])
    ensures LeadingDigits(t) == u
  {
    if |u| > 0 {
      assert u[1..] == t[1..][..|u| - 1];
      LeadingDigitsOfDigits(u[1..], t[1..]);
    }
  }

  /** What `fmtPct` (js/app.js) displays: the dash sentinel or a percentage. */
  datatype PctText = Dash | Percent(value: real)

  /** `fmtPct(made, att)`: the dash when the attempts read as 0, otherwise
      `100 * made / att` (before `toFixed`). */
  function FmtPct(made: string, att: string): (r: PctText)
    ensures r.Dash? <==> ToNum(att) == 0
    ensures r.Percent? ==> r.value == Pct(ToNum(made), ToNum(att))
  {
    var m := ToNum(made);
    var a := ToNum(att);
    if a == 0 then Dash else Percent(Pct(m, a))
  }

  /** A shooting percentage from made and attempted: 0 when there are no
      attempts (`pct` in js/leaders.js, the local `pct` in js/players.js). */
  function Pct(made: nat, att: nat): (r: real)
    ensures att == 0 ==> r == 0.0
    ensures att > 0 ==> r * (att as real) == 100.0 * (made as real)
    ensures made <= att ==> 0.0 <= r <= 100.0
  {
    if att == 0 then 0.0 else (made as real / att as real) * 100.0
  }
}
