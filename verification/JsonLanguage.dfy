/** The language that json_parse_ex accepts, by recursive descent over the text, and that it is exactly that language.

    It is the grammar of sections 2 to 7 of RFC 8259 with these differences: a comma may follow the last item or member;
    behind a minus sign the digits in front of an exponent, or all digits, may be missing; strings may hold any byte but
    zero, and a backslash may stand in front of any of them; and a zero byte behind the value ends the text. */
module JsonLanguage {
  import opened Bits
  import opened JsonSyntax
  import opened JsonControl
  import opened JsonPasses
  import opened JsonReading
  import JsonGrammar

  // ---- The language ----

  /** Where something ends that starts at a given place, if it is there. */
  datatype Found = Missing | Upto(j: nat)

  function SpaceEnd(text: seq<byte>, i: nat): (j: nat)
    ensures i <= j && (i <= |text| ==> j <= |text|) && !WhiteSpace(At(text, j))
    decreases |text| - i
  {
    if WhiteSpace(At(text, i)) then SpaceEnd(text, i + 1) else i
  }

  function DigitsEnd(text: seq<byte>, i: nat): (j: nat)
    ensures i <= j && (i <= |text| ==> j <= |text|) && !Decimal(At(text, j))
    decreases |text| - i
  {
    if Decimal(At(text, i)) then DigitsEnd(text, i + 1) else i
  }

  /** The four hexadecimal digits of an escape. */
  predicate CodeUnit(text: seq<byte>, i: nat) {
    i + 4 <= |text| && forall k :: i <= k < i + 4 ==> HexDigit(text[k])
  }

  /** The characters of a string and its closing quote. */
  function StringEnd(text: seq<byte>, i: nat): (r: Found)
    ensures r.Upto? ==> i < r.j <= |text|
    decreases |text| - i
  {
    if i >= |text| || text[i] == 0 then Missing
    else if text[i] == QUOTATION_MARK then Upto(i + 1)
    else if text[i] != REVERSE_SOLIDUS then StringEnd(text, i + 1)
    else if i + 1 >= |text| || text[i + 1] == 0 then Missing
    else if text[i + 1] != 'u' as int then StringEnd(text, i + 2)
    else if CodeUnit(text, i + 2) then StringEnd(text, i + 6)
    else Missing
  }

  /** The integer part: a zero stands alone. */
  function IntPartEnd(text: seq<byte>, p: nat): (q: nat)
    ensures p <= q && (p <= |text| ==> q <= |text|)
  {
    if At(text, p) == ZERO then p + 1 else DigitsEnd(text, p)
  }

  /** The fraction behind an integer part that starts at `p`. */
  function FractionEnd(text: seq<byte>, p: nat, q: nat): (r: Found)
    ensures r.Upto? ==> q <= r.j && (q <= |text| ==> r.j <= |text|)
  {
    if At(text, q) != DECIMAL_POINT then Upto(q)
    else if q == p || DigitsEnd(text, q + 1) == q + 1 then Missing
    else Upto(DigitsEnd(text, q + 1))
  }

  function SignEnd(text: seq<byte>, i: nat): (j: nat)
    ensures i <= j && (i <= |text| ==> j <= |text|)
  {
    if At(text, i) == PLUS_SIGN || At(text, i) == MINUS_SIGN then i + 1 else i
  }

  function ExponentEnd(text: seq<byte>, r: nat): (f: Found)
    ensures f.Upto? ==> r <= f.j && (r <= |text| ==> f.j <= |text|)
  {
    if !ExponentLetter(At(text, r)) then Upto(r)
    else
      var t := SignEnd(text, r + 1);
      if DigitsEnd(text, t) == t then Missing else Upto(DigitsEnd(text, t))
  }

  predicate PartOfNumber(b: byte) {
    Decimal(b) || ExponentLetter(b) || b == PLUS_SIGN || b == MINUS_SIGN || b == DECIMAL_POINT
  }

  /** The end of a number, behind which no character of a number stands. */
  function AloneEnd(text: seq<byte>, f: Found): (r: Found)
    ensures r.Upto? ==> r == f
  {
    if f.Upto? && PartOfNumber(At(text, f.j)) then Missing else f
  }

  function NumberEnd(text: seq<byte>, i: nat): (r: Found)
    requires Decimal(At(text, i)) || At(text, i) == MINUS_SIGN
    ensures r.Upto? ==> i < r.j <= |text|
  {
    var p := if At(text, i) == MINUS_SIGN then i + 1 else i;
    var fraction := FractionEnd(text, p, IntPartEnd(text, p));
    if fraction.Missing? then Missing else AloneEnd(text, ExponentEnd(text, fraction.j))
  }

  function WordEnd(text: seq<byte>, i: nat, word: seq<byte>): (r: Found)
    requires |word| > 0
    ensures r.Upto? ==> i < r.j <= |text|
  {
    if i + |word| <= |text| && text[i..i + |word|] == word then Upto(i + |word|) else Missing
  }

  function ValueEnd(text: seq<byte>, i: nat): (r: Found)
    ensures r.Upto? ==> i < r.j <= |text|
    decreases |text| - i, 0
  {
    var b := At(text, i);
    if b == BEGIN_OBJECT then MembersEnd(text, i + 1)
    else if b == BEGIN_ARRAY then ItemsEnd(text, i + 1)
    else if b == QUOTATION_MARK then StringEnd(text, i + 1)
    else if b == 't' as int then WordEnd(text, i, [116, 114, 117, 101])
    else if b == 'f' as int then WordEnd(text, i, [102, 97, 108, 115, 101])
    else if b == 'n' as int then WordEnd(text, i, [110, 117, 108, 108])
    else if Decimal(b) || b == MINUS_SIGN then NumberEnd(text, i)
    else Missing
  }

  /** Items, each but the last with a comma behind it, perhaps the last too, and the closing bracket. */
  function ItemsEnd(text: seq<byte>, i: nat): (r: Found)
    ensures r.Upto? ==> i < r.j <= |text|
    decreases |text| - i, 1
  {
    var j := SpaceEnd(text, i);
    if At(text, j) == END_ARRAY then Upto(j + 1)
    else
      var v := ValueEnd(text, j);
      if v.Missing? then Missing
      else
        var m := SpaceEnd(text, v.j);
        if At(text, m) == END_ARRAY then Upto(m + 1)
        else if At(text, m) == VALUE_SEPARATOR then ItemsEnd(text, m + 1)
        else Missing
  }

  /** Members in the same way, and the closing brace. */
  function MembersEnd(text: seq<byte>, i: nat): (r: Found)
    ensures r.Upto? ==> i < r.j <= |text|
    decreases |text| - i, 1
  {
    var j := SpaceEnd(text, i);
    if At(text, j) == END_OBJECT then Upto(j + 1)
    else
      var v := MemberEnd(text, j);
      if v.Missing? then Missing
      else
        var m := SpaceEnd(text, v.j);
        if At(text, m) == END_OBJECT then Upto(m + 1)
        else if At(text, m) == VALUE_SEPARATOR then MembersEnd(text, m + 1)
        else Missing
  }

  /** A name, a colon and a value. */
  function MemberEnd(text: seq<byte>, j: nat): (r: Found)
    ensures r.Upto? ==> j < r.j <= |text|
    decreases |text| - j, 0
  {
    if At(text, j) != QUOTATION_MARK then Missing
    else
      var name := StringEnd(text, j + 1);
      if name.Missing? then Missing
      else
        var m := SpaceEnd(text, name.j);
        if At(text, m) != NAME_SEPARATOR then Missing else ValueEnd(text, SpaceEnd(text, m + 1))
  }

  /** White space, a value, white space, and the end of the text or a zero byte. */
  predicate Accepted(text: seq<byte>) {
    var v := ValueEnd(text, SpaceEnd(text, 0));
    v.Upto? && At(text, SpaceEnd(text, v.j)) == 0
  }

  // ---- How the loop gets from one state to another ----

  /** From `c` the loop comes to `c'`. */
  ghost predicate Leads(text: seq<byte>, c: Ctl, c': Ctl) {
    Inv(c) && c.i <= |text| && Inv(c') && c'.i <= |text| && (Run(true, text, c).Ok? <==> Run(true, text, c').Ok?)
  }

  /** From `c` the loop comes to no good end. */
  ghost predicate Dead(text: seq<byte>, c: Ctl) {
    Inv(c) && c.i <= |text| && !Run(true, text, c).Ok?
  }

  lemma StaysPut(text: seq<byte>, c: Ctl)
    requires Inv(c) && c.i <= |text|
    ensures Leads(text, c, c)
  {
    hide Run, Inv;
  }

  lemma Through(text: seq<byte>, a: Ctl, b: Ctl, c: Ctl)
    requires Leads(text, a, b)
    ensures Leads(text, b, c) ==> Leads(text, a, c)
    ensures Dead(text, b) ==> Dead(text, a)
  {
    hide Run, Inv;
  }

  lemma StepLeads(text: seq<byte>, c: Ctl)
    requires Inv(c) && c.i <= |text|
    ensures var o := Step(true, text, c); if o.Go? then Leads(text, c, o.c) else !o.Finished? ==> Dead(text, c)
  {
    hide Step, Inv;
    StepKeeps(true, text, c);
  }

  lemma LeadsInv(text: seq<byte>, c: Ctl, c': Ctl)
    requires Leads(text, c, c')
    ensures Inv(c) && Inv(c') && c.i <= |text| && c'.i <= |text|
  {
  }

  lemma {:induction false} SpaceLeads(text: seq<byte>, c: Ctl)
    requires Inv(c) && c.i <= |text| && Skips(c)
    ensures Leads(text, c, c.(i := SpaceEnd(text, c.i)))
    decreases |text| - c.i
  {
    hide Step, Inv, Leads;
    if Space(At(text, c.i)) {
      var c1 := c.(i := c.i + 1);
      SpaceStep(text, c);
      StepLeads(text, c);
      LeadsInv(text, c, c1);
      SpaceLeads(text, c1);
      Through(text, c, c1, c.(i := SpaceEnd(text, c.i)));
    } else {
      StaysPut(text, c);
      assert c.(i := c.i) == c;
    }
  }

  // ---- Strings ----

  /** Inside a string or name, with a length that cannot overflow. */
  ghost predicate InText(text: seq<byte>, c: Ctl) {
    Inv(c) && c.f.inString && !c.f.escaped && c.strLen <= c.i <= |text| <= UINT_MAX
  }

  /** One character, with its escape. */
  lemma CharacterStep(text: seq<byte>, c: Ctl)
    requires InText(text, c) && At(text, c.i) != QUOTE
    ensures var b, o := At(text, c.i), Step(true, text, c);
            && (b == 0 ==> o.Failed?)
            && (b != 0 && b != BACKSLASH ==> o.Go? && o.c == c.(i := c.i + 1, strLen := c.strLen + 1))
            && (b == BACKSLASH ==> o.Go? && o.c == c.(i := c.i + 1, f := c.f.(escaped := true)))
  {
  }

  lemma EscapedCharacterStep(text: seq<byte>, c: Ctl)
    requires InText(text, c.(f := c.f.(escaped := false))) && c.f.escaped
    ensures var b, o := At(text, c.i), Step(true, text, c);
            if b == 0 || (b == LOWER_U && !HexDigits(text, c.i)) then o.Failed?
            else
              && o.Go?
              && o.c == c.(i := if b == LOWER_U then c.i + 5 else c.i + 1, f := c.f.(escaped := false),
              strLen := o.c.strLen)
              && o.c.strLen <= c.strLen + (if b == LOWER_U then 3 else 1)
  {
    hide HexDigits;
  }

  lemma CodeUnitMeans(text: seq<byte>, i: nat)
    ensures HexDigits(text, i) <==> CodeUnit(text, i + 1)
  {
    hide HexValue, HexDigit;
    JsonGrammar.HexValueMeans(At(text, i + 1));
    JsonGrammar.HexValueMeans(At(text, i + 2));
    JsonGrammar.HexValueMeans(At(text, i + 3));
    JsonGrammar.HexValueMeans(At(text, i + 4));
    NoHexEnd();
    CodeIsInside(text, i);
    if i + 5 <= |text| {
      assert forall k :: i + 1 <= k < i + 5 ==> text[k] == At(text, k);
    }
  }

  lemma NoHexEnd()
    ensures !HexDigit(0)
  {
  }

  lemma {:induction false} StringLeads(text: seq<byte>, c: Ctl) returns (c': Ctl)
    requires InText(text, c)
    ensures var r := StringEnd(text, c.i);
            if r.Missing? then Dead(text, c)
            else
              && Leads(text, c, c') && c' == c.(i := r.j - 1, strLen := c'.strLen)
              && At(text, c'.i) == QUOTE && InText(text, c')
    decreases |text| - c.i
  {
    hide Step, Inv, HexDigits, CodeUnit, Leads, Dead;
    var b := At(text, c.i);
    c' := c;
    if b == QUOTE {
      StaysPut(text, c);
    } else {
      CharacterStep(text, c);
      StepLeads(text, c);
      if b == BACKSLASH {
        var c1 := Step(true, text, c).c;
        LeadsInv(text, c, c1);
        assert c1.(f := c1.f.(escaped := false)) == c.(i := c.i + 1);
        Unescaped(c, c.i + 1);
        EscapedCharacterStep(text, c1);
        StepLeads(text, c1);
        var o := Step(true, text, c1);
        CodeUnitMeans(text, c.i + 1);
        if o.Go? {
          CodeIsInside(text, c.i + 1);
          LeadsInv(text, c1, o.c);
          assert o.c == c.(i := o.c.i, strLen := o.c.strLen);
          c' := StringLeads(text, o.c);
          Through(text, c1, o.c, c');
        }
        Through(text, c, c1, c');
      } else if b != 0 {
        var c1 := Step(true, text, c).c;
        LeadsInv(text, c, c1);
        c' := StringLeads(text, c1);
        Through(text, c, c1, c');
      }
    }
  }

  lemma Unescaped(c: Ctl, i: nat)
    requires Inv(c) && c.f.inString
    ensures Inv(c.(i := i)) && Inv(c.(i := i, f := c.f.(escaped := false)))
  {
  }

  // ---- Numbers ----

  /** From `c` on a value is read that ends where `r` says, for a parser that looked for it in `c0`. */
  ghost predicate Reads(text: seq<byte>, c0: Ctl, c: Ctl, r: Found, c': Ctl) {
    if r.Missing? then Dead(text, c) else Leads(text, c, c') && Behind(c0, c') && c'.i == r.j
  }

  lemma ReadsThrough(text: seq<byte>, c0: Ctl, a: Ctl, b: Ctl, r: Found, c': Ctl)
    requires Leads(text, a, b) && Reads(text, c0, b, r, c')
    ensures Reads(text, c0, a, r, c')
  {
    hide Leads, Dead;
    Through(text, a, b, c');
  }

  /** Inside the number that starts in `c0`. */
  ghost predicate Counting(c0: Ctl, c: Ctl) {
    Inv(c) && c.path == c0.path + [Kind.Number] && c.f == Flags(false, false, false, false, false, false)
  }

  /** In front of an exponent. */
  predicate Plain(n: Numeral) {
    !n.e && !n.eSign
  }

  /** One digit behind a dot or an e. */
  lemma LateDigitStep(text: seq<byte>, c0: Ctl, c: Ctl)
    requires Counting(c0, c) && (c.num.e || c.num.isDouble) && Digit(At(text, c.i))
    ensures var n := c.num;
            var c1 := c.(i := c.i + 1, num := n.(digits := n.digits + 1, eSign := n.eSign || n.e));
            Step(true, text, c) == Go(c1, []) && Counting(c0, c1)
  {
  }

  lemma {:induction false} LateDigitsLead(text: seq<byte>, c0: Ctl, c: Ctl) returns (c': Ctl)
    requires Counting(c0, c) && (c.num.e || c.num.isDouble) && c.i <= |text|
    ensures var n, j := c.num, DigitsEnd(text, c.i);
            && Leads(text, c, c') && Counting(c0, c')
            && c' == c.(i := j, num := n.(digits := n.digits + (j - c.i), eSign := n.eSign || (n.e && j > c.i)))
    decreases |text| - c.i
  {
    hide Step, Inv, Leads;
    c' := c;
    if Digit(At(text, c.i)) {
      LateDigitStep(text, c0, c);
      StepLeads(text, c);
      var c1 := Step(true, text, c).c;
      c' := LateDigitsLead(text, c0, c1);
      Through(text, c, c1, c');
    } else {
      StaysPut(text, c);
    }
  }

  /** One digit of an integer part that has no leading zero. */
  lemma IntDigitStep(text: seq<byte>, c0: Ctl, c: Ctl)
    requires Counting(c0, c) && !c.num.e && !c.num.isDouble && !c.num.zero && Digit(At(text, c.i))
    ensures var n, o := c.num, Step(true, text, c);
            && o.Go? && Counting(c0, o.c) && o.c == c.(i := c.i + 1, num := o.c.num)
            && o.c.num.zero == (n.digits == 0 && At(text, c.i) == 48)
            && o.c.num == n.(digits := n.digits + 1, zero := o.c.num.zero, integer := o.c.num.integer)
  {
    hide Int64;
  }

  lemma {:induction false} IntDigitsLead(text: seq<byte>, c0: Ctl, c: Ctl) returns (c': Ctl)
    requires Counting(c0, c) && !c.num.e && !c.num.isDouble && !c.num.zero && c.i <= |text|
    requires c.num.digits == 0 ==> At(text, c.i) != 48
    ensures var n, j := c.num, DigitsEnd(text, c.i);
            && Leads(text, c, c') && Counting(c0, c') && c' == c.(i := j, num := c'.num)
            && c'.num == n.(digits := n.digits + (j - c.i), integer := c'.num.integer)
    decreases |text| - c.i
  {
    hide Step, Inv, Leads;
    c' := c;
    if Digit(At(text, c.i)) {
      IntDigitStep(text, c0, c);
      StepLeads(text, c);
      var c1 := Step(true, text, c).c;
      c' := IntDigitsLead(text, c0, c1);
      Through(text, c, c1, c');
    } else {
      StaysPut(text, c);
    }
  }

  /** A character that does not belong to the number any more. */
  predicate Foreign(n: Numeral, b: byte) {
    && !Digit(b) && (n.e || !ExponentLetter(b)) && (n.isDouble || b != DOT)
    && ((b == PLUS || b == MINUS) && n.e ==> n.eSign)
  }

  lemma ForeignStep(text: seq<byte>, c0: Ctl, c: Ctl)
    requires Counting(c0, c) && Foreign(c.num, At(text, c.i)) && NumberComplete(c.num)
    ensures exists v :: Step(true, text, c) == Tail(c, true, true, [v])
  {
    hide Tail, Int64;
    var n := c.num;
    var v := Value(n.isDouble, if n.negative then Int64(-n.integer) else n.integer);
    assert Step(true, text, c) == Tail(c, true, true, [v]);
  }

  /** A dot or an e without a digit behind it. */
  lemma DigitsMissing(text: seq<byte>, c0: Ctl, c: Ctl)
    requires Counting(c0, c) && c.i <= |text| && c.num.isDouble && c.num.digits == 0 && !Digit(At(text, c.i))
    requires (At(text, c.i) == PLUS || At(text, c.i) == MINUS) && c.num.e ==> c.num.eSign
    ensures Dead(text, c)
  {
    hide Inv, Tail, Dead;
    StepLeads(text, c);
  }

  lemma NumberEnds(text: seq<byte>, c0: Ctl, c: Ctl) returns (c': Ctl)
    requires Seeking(c0) && Counting(c0, c) && c.i <= |text| && NumberComplete(c.num) && Foreign(c.num, At(text, c.i))
    ensures Reads(text, c0, c, AloneEnd(text, Upto(c.i)), c')
  {
    hide Step, Inv, Tail, Leads, Dead, NumberComplete, Foreign;
    ForeignStep(text, c0, c);
    var v :| Step(true, text, c) == Tail(c, true, true, [v]);
    TailBehind(c0, c, true, [v]);
    StepLeads(text, c);
    c' := Step(true, text, c).c;
    if NumberChar(At(text, c.i)) {
      NoNumberFollows(text, c, [v]);
      LeadsInv(text, c, c');
      StepLeads(text, c');
      Through(text, c, c', c');
    }
  }

  lemma ExponentStep(text: seq<byte>, c0: Ctl, c: Ctl)
    requires Counting(c0, c) && Plain(c.num) && NumberComplete(c.num) && ExponentLetter(At(text, c.i))
    ensures var c1 := c.(i := c.i + 1, num := c.num.(e := true, isDouble := true, digits := 0, zero := false));
            Step(true, text, c) == Go(c1, []) && Counting(c0, c1)
  {
  }

  lemma SignStep(text: seq<byte>, c0: Ctl, c: Ctl)
    requires Counting(c0, c) && c.num.e && !c.num.eSign && (At(text, c.i) == PLUS || At(text, c.i) == MINUS)
    ensures var c1 := c.(i := c.i + 1, num := c.num.(eSign := true, eNegative := At(text, c.i) == MINUS));
            Step(true, text, c) == Go(c1, []) && Counting(c0, c1)
  {
  }

  /** The sign of an exponent, if there is one. */
  lemma SignLeads(text: seq<byte>, c0: Ctl, c: Ctl) returns (c': Ctl)
    requires Counting(c0, c) && c.num.e && !c.num.eSign && c.i <= |text|
    ensures Leads(text, c, c') && Counting(c0, c') && c' == c.(i := SignEnd(text, c.i), num := c'.num)
    ensures c'.num == c.num.(eSign := c'.num.eSign, eNegative := c'.num.eNegative)
    ensures At(text, c'.i) == PLUS || At(text, c'.i) == MINUS ==> c'.num.eSign
  {
    hide Step, Inv, Leads;
    c' := c;
    if At(text, c.i) == PLUS || At(text, c.i) == MINUS {
      SignStep(text, c0, c);
      StepLeads(text, c);
      c' := Step(true, text, c).c;
    } else {
      StaysPut(text, c);
    }
  }

  lemma ExponentLeads(text: seq<byte>, c0: Ctl, c: Ctl) returns (c': Ctl)
    requires Seeking(c0) && Counting(c0, c) && c.i <= |text| && Plain(c.num) && NumberComplete(c.num)
    requires !Digit(At(text, c.i)) && (c.num.isDouble || At(text, c.i) != DOT)
    ensures Reads(text, c0, c, AloneEnd(text, ExponentEnd(text, c.i)), c')
  {
    hide Step, Inv, Tail, Leads, Dead;
    if !ExponentLetter(At(text, c.i)) {
      c' := NumberEnds(text, c0, c);
    } else {
      ExponentStep(text, c0, c);
      StepLeads(text, c);
      var c1 := Step(true, text, c).c;
      LeadsInv(text, c, c1);
      var c2 := SignLeads(text, c0, c1);
      LeadsInv(text, c1, c2);
      var c3 := LateDigitsLead(text, c0, c2);
      LeadsInv(text, c2, c3);
      if c3.num.digits == 0 {
        DigitsMissing(text, c0, c3);
        c' := c3;
      } else {
        c' := NumberEnds(text, c0, c3);
      }
      ReadsThrough(text, c0, c2, c3, AloneEnd(text, ExponentEnd(text, c.i)), c');
      ReadsThrough(text, c0, c1, c2, AloneEnd(text, ExponentEnd(text, c.i)), c');
      ReadsThrough(text, c0, c, c1, AloneEnd(text, ExponentEnd(text, c.i)), c');
    }
  }

  /** What stands behind the integer part from `p` to `q`. */
  function RestEnd(text: seq<byte>, p: nat, q: nat): Found {
    var fraction := FractionEnd(text, p, q);
    if fraction.Missing? then Missing else AloneEnd(text, ExponentEnd(text, fraction.j))
  }

  lemma DotStep(text: seq<byte>, c0: Ctl, c: Ctl)
    requires Counting(c0, c) && !c.num.isDouble && At(text, c.i) == DOT && (c.num.e ==> c.num.eSign)
    ensures var c1, o := c.(i := c.i + 1, num := c.num.(isDouble := true, digits := 0)), Step(true, text, c);
            if c.num.digits == 0 then o.Failed? else o == Go(c1, []) && Counting(c0, c1)
  {
  }

  lemma FractionLeads(text: seq<byte>, c0: Ctl, c: Ctl, p: nat) returns (c': Ctl)
    requires Seeking(c0) && Counting(c0, c) && p <= c.i <= |text| && Plain(c.num) && !c.num.isDouble
        && c.num.digits == c.i - p
    requires !Digit(At(text, c.i))
    ensures Reads(text, c0, c, RestEnd(text, p, c.i), c')
  {
    hide Step, Inv, Tail, Leads, Dead, ExponentEnd, AloneEnd;
    if At(text, c.i) != DOT {
      c' := ExponentLeads(text, c0, c);
    } else {
      DotStep(text, c0, c);
      StepLeads(text, c);
      c' := c;
      if c.num.digits != 0 {
        var c1 := Step(true, text, c).c;
        LeadsInv(text, c, c1);
        var c2 := LateDigitsLead(text, c0, c1);
        LeadsInv(text, c1, c2);
        if c2.num.digits == 0 {
          DigitsMissing(text, c0, c2);
        } else {
          c' := ExponentLeads(text, c0, c2);
        }
        ReadsThrough(text, c0, c1, c2, RestEnd(text, p, c.i), c');
        ReadsThrough(text, c0, c, c1, RestEnd(text, p, c.i), c');
      }
    }
  }

  /** Behind a zero no digit may come. */
  lemma ZeroEnds(text: seq<byte>, c0: Ctl, c: Ctl, p: nat) returns (c': Ctl)
    requires Seeking(c0) && Counting(c0, c) && p + 1 == c.i <= |text| && Plain(c.num) && !c.num.isDouble
        && c.num.digits == 1 && c.num.zero
    ensures Reads(text, c0, c, RestEnd(text, p, c.i), c')
  {
    hide Inv, Tail, Leads, Dead;
    c' := c;
    if Digit(At(text, c.i)) {
      StepLeads(text, c);
    } else {
      c' := FractionLeads(text, c0, c, p);
    }
  }

  lemma IntegerLeads(text: seq<byte>, c0: Ctl, c: Ctl) returns (c': Ctl)
    requires Seeking(c0) && Counting(c0, c) && c.i <= |text|
        && (c.num == NO_NUMERAL || c.num == NO_NUMERAL.(negative := true))
    ensures Reads(text, c0, c, RestEnd(text, c.i, IntPartEnd(text, c.i)), c')
  {
    hide Step, Inv, Leads, Dead, RestEnd;
    var c1;
    if At(text, c.i) == 48 {
      IntDigitStep(text, c0, c);
      StepLeads(text, c);
      c1 := Step(true, text, c).c;
      LeadsInv(text, c, c1);
      c' := ZeroEnds(text, c0, c1, c.i);
    } else {
      c1 := IntDigitsLead(text, c0, c);
      LeadsInv(text, c, c1);
      c' := FractionLeads(text, c0, c1, c.i);
    }
    ReadsThrough(text, c0, c, c1, RestEnd(text, c.i, IntPartEnd(text, c.i)), c');
  }

  lemma NumberStartStep(text: seq<byte>, c: Ctl)
    requires Seeking(c) && (Digit(At(text, c.i)) || At(text, c.i) == MINUS)
    ensures var minus := At(text, c.i) == MINUS;
            var c1 := c.(i := if minus then c.i + 1 else c.i, path := c.path + [Kind.Number],
                         f := Flags(false, false, false, false, false, false), num := NO_NUMERAL.(negative := minus));
            Step(true, text, c) == Go(c1, [New(Kind.Number, false)]) && Counting(c, c1)
  {
  }

  lemma NumberLeads(text: seq<byte>, c: Ctl) returns (c': Ctl)
    requires Seeking(c) && c.i <= |text| && (Digit(At(text, c.i)) || At(text, c.i) == MINUS)
    ensures Reads(text, c, c, NumberEnd(text, c.i), c')
  {
    hide Step, Inv, Leads, Dead, IntPartEnd, FractionEnd, ExponentEnd, AloneEnd;
    NumberStartStep(text, c);
    StepLeads(text, c);
    var c1 := Step(true, text, c).c;
    LeadsInv(text, c, c1);
    c' := IntegerLeads(text, c, c1);
    ReadsThrough(text, c, c, c1, NumberEnd(text, c.i), c');
  }

  // ---- Words and string values ----

  lemma LiteralStep(text: seq<byte>, c: Ctl, word: seq<byte>, kind: Kind)
    requires Seeking(c)
    requires (At(text, c.i) == 116 && word == [114, 117, 101] && kind == Boolean)
          || (At(text, c.i) == 102 && word == [97, 108, 115, 101] && kind == Boolean)
          || (At(text, c.i) == 110 && word == [117, 108, 108] && kind == Null)
    ensures var o := Step(true, text, c);
            var c1 := c.(i := c.i + |word|, path := c.path + [kind],
                f := Flags(false, false, false, false, false, false));
            if Follows(text, c.i, word) then exists ev :: o == Tail(c1, true, false, ev) else o.Failed?
  {
    hide Follows, Tail;
    var c1 := c.(i := c.i + |word|, path := c.path + [kind], f := Flags(false, false, false, false, false, false));
    assert Follows(text, c.i, word) ==> Step(true, text, c) == Tail(c1, true, false, [New(kind, At(text, c.i) == 116)]);
  }

  lemma WordLeads(text: seq<byte>, c: Ctl, word: seq<byte>, kind: Kind) returns (c': Ctl)
    requires Seeking(c) && c.i <= |text| && |word| > 0 && word[|word| - 1] != 0
    requires (At(text, c.i) == 116 && word == [114, 117, 101] && kind == Boolean)
          || (At(text, c.i) == 102 && word == [97, 108, 115, 101] && kind == Boolean)
          || (At(text, c.i) == 110 && word == [117, 108, 108] && kind == Null)
    ensures Reads(text, c, c, WordEnd(text, c.i, [At(text, c.i)] + word), c')
  {
    hide Step, Inv, Tail, Follows, Leads, Dead;
    LiteralStep(text, c, word, kind);
    StepLeads(text, c);
    c' := c;
    if Follows(text, c.i, word) {
      var c1 := c.(i := c.i + |word|, path := c.path + [kind], f := Flags(false, false, false, false, false, false));
      var ev :| Step(true, text, c) == Tail(c1, true, false, ev);
      TailBehind(c, c1, false, ev);
      c' := Step(true, text, c).c;
    }
    WordFound(text, c.i, word);
  }

  /** The parser compares what follows the first letter. */
  lemma WordFound(text: seq<byte>, i: nat, word: seq<byte>)
    requires |word| > 0 && word[|word| - 1] != 0
    ensures Follows(text, i, word) <==> i + |word| + 1 <= |text| && text[i..i + |word| + 1] == [At(text, i)] + word
  {
    FollowsInside(text, i, word);
    if i + |word| + 1 <= |text| {
      var found := text[i..i + |word| + 1];
      forall k | 0 <= k < |word|
        ensures At(text, i + 1 + k) == found[1..][k]
      {
      }
      assert Follows(text, i, word) <==> found[1..] == word;
      assert found == [found[0]] + found[1..];
    }
  }

  lemma StringValueLeads(text: seq<byte>, c: Ctl) returns (c': Ctl)
    requires Seeking(c) && c.i <= |text| <= UINT_MAX && At(text, c.i) == QUOTE
    ensures Reads(text, c, c, StringEnd(text, c.i + 1), c')
  {
    hide Step, Inv, Tail, Leads, Dead, StringEnd;
    QuoteOpens(text, c);
    StepLeads(text, c);
    var c1 := Step(true, text, c).c;
    LeadsInv(text, c, c1);
    var c2 := StringLeads(text, c1);
    c' := c2;
    if StringEnd(text, c.i + 1).Upto? {
      LeadsInv(text, c1, c2);
      QuoteCloses(text, c2);
      TailBehind(c, c2.(f := c2.f.(inString := false)), false, [EndStr]);
      StepLeads(text, c2);
      c' := Step(true, text, c2).c;
      Through(text, c1, c2, c');
    }
    ReadsThrough(text, c, c, c1, StringEnd(text, c.i + 1), c');
  }

  // ---- Arrays and objects ----

  /** The list that `c` is inside ends with its closing bracket or brace, which stands at `c'`. */
  ghost predicate Lists(text: seq<byte>, c: Ctl, r: Found, close: byte, c': Ctl) {
    if r.Missing? then Dead(text, c)
    else
      && Leads(text, c, c') && c'.path == c.path && c'.i + 1 == r.j && At(text, c'.i) == close
      && if close == CLOSE_BRACKET then AtBracket(c') else AtBrace(c')
  }

  lemma ListsThrough(text: seq<byte>, a: Ctl, b: Ctl, r: Found, close: byte, c': Ctl)
    requires Leads(text, a, b) && a.path == b.path && Lists(text, b, r, close, c')
    ensures Lists(text, a, r, close, c')
  {
    hide Leads, Dead, Inv;
    Through(text, a, b, c');
  }

  /** White space inside a container changes nothing but the cursor. */
  lemma Spaced(text: seq<byte>, c: Ctl) returns (c': Ctl)
    requires Inv(c) && c.i <= |text| && Skips(c)
    ensures Leads(text, c, c') && c' == c.(i := SpaceEnd(text, c.i)) && Inv(c') && c'.i <= |text|
        && !Space(At(text, c'.i))
  {
    hide Leads, Inv;
    SpaceLeads(text, c);
    c' := c.(i := SpaceEnd(text, c.i));
    LeadsInv(text, c, c');
  }

  /** Behind an item: only white space, a comma or the closing bracket may come. */
  lemma NoItemFollows(text: seq<byte>, c: Ctl)
    requires AtBracket(c) && c.i <= |text| && c.f.needComma
    requires !Space(At(text, c.i)) && At(text, c.i) != CLOSE_BRACKET && At(text, c.i) != COMMA
    ensures Dead(text, c)
  {
    hide Inv, Dead;
    StepLeads(text, c);
  }

  /** Inside an object: only white space, a name, the closing brace or, behind a member, a comma. */
  lemma NoMemberFollows(text: seq<byte>, c: Ctl)
    requires AtBrace(c) && c.i <= |text| && !Space(At(text, c.i)) && At(text, c.i) != CLOSE_BRACE
    requires if c.f.needComma then At(text, c.i) != COMMA else At(text, c.i) != QUOTE
    ensures Dead(text, c)
  {
    hide Inv, Dead;
    StepLeads(text, c);
  }

  lemma NoColonFollows(text: seq<byte>, c: Ctl)
    requires Inv(c) && c.i <= |text| && c.f == Flags(false, true, false, false, true, false)
    requires !Space(At(text, c.i)) && At(text, c.i) != COLON
    ensures Dead(text, c)
  {
    hide Dead;
    StepLeads(text, c);
  }

  lemma NoValueFollows(text: seq<byte>, c: Ctl)
    requires Seeking(c) && c.i <= |text| && !Space(At(text, c.i))
    requires var b := At(text, c.i);
             b != OPEN_BRACE && b != OPEN_BRACKET && b != QUOTE && b != 116 && b != 102 && b != 110 && !Digit(b)
             && b != MINUS
    requires At(text, c.i) == CLOSE_BRACKET ==> c.path == [] || !Last(c.path).Array?
    ensures Dead(text, c)
  {
    hide Inv, Dead;
    StepLeads(text, c);
  }

  /** The closing bracket or brace itself. */
  lemma ListCloses(text: seq<byte>, c0: Ctl, c: Ctl, r: Found, close: byte, c1: Ctl) returns (c': Ctl)
    requires Seeking(c0) && |c.path| == |c0.path| + 1 && c.path[..|c0.path|] == c0.path
    requires close == CLOSE_BRACKET || close == CLOSE_BRACE
    requires Lists(text, c, r, close, c1)
    ensures Reads(text, c0, c, r, c')
  {
    hide Inv, Step, Tail, Leads, Dead;
    c' := c;
    if r.Upto? {
      if close == CLOSE_BRACKET {
        BracketCloses(text, c1);
      } else {
        BraceCloses(text, c1);
      }
      TailBehind(c0, c1.(f := Flags(false, false, false, false, false, false)), false, []);
      LeadsInv(text, c, c1);
      StepLeads(text, c1);
      c' := Step(true, text, c1).c;
      Through(text, c, c1, c');
    }
  }

  lemma ArrayLeads(text: seq<byte>, c: Ctl) returns (c': Ctl)
    requires Seeking(c) && c.i <= |text| <= UINT_MAX && At(text, c.i) == OPEN_BRACKET
    ensures Reads(text, c, c, ItemsEnd(text, c.i + 1), c')
    decreases |text| - c.i, 0
  {
    hide Inv, Step, Leads, Dead, ItemsEnd;
    BracketOpens(text, c);
    StepLeads(text, c);
    var c1 := Step(true, text, c).c;
    LeadsInv(text, c, c1);
    var c2 := ItemsLead(text, c1);
    c' := ListCloses(text, c, c1, ItemsEnd(text, c.i + 1), CLOSE_BRACKET, c2);
    ReadsThrough(text, c, c, c1, ItemsEnd(text, c.i + 1), c');
  }

  lemma ObjectLeads(text: seq<byte>, c: Ctl) returns (c': Ctl)
    requires Seeking(c) && c.i <= |text| <= UINT_MAX && At(text, c.i) == OPEN_BRACE
    ensures Reads(text, c, c, MembersEnd(text, c.i + 1), c')
    decreases |text| - c.i, 0
  {
    hide Inv, Step, Leads, Dead, MembersEnd;
    BraceOpens(text, c);
    StepLeads(text, c);
    var c1 := Step(true, text, c).c;
    LeadsInv(text, c, c1);
    var c2 := MembersLead(text, c1);
    c' := ListCloses(text, c, c1, MembersEnd(text, c.i + 1), CLOSE_BRACE, c2);
    ReadsThrough(text, c, c, c1, MembersEnd(text, c.i + 1), c');
  }

  /** From a state that looks for a value, behind white space, the loop reads the value that stands there, and comes to
      no good end if none does. */
  lemma ValueLeads(text: seq<byte>, c: Ctl) returns (c': Ctl)
    requires Seeking(c) && c.i <= |text| <= UINT_MAX && !Space(At(text, c.i))
    requires At(text, c.i) == CLOSE_BRACKET ==> c.path == [] || !Last(c.path).Array?
    ensures Reads(text, c, c, ValueEnd(text, c.i), c')
    decreases |text| - c.i, 1
  {
    hide Inv, Reads, ItemsEnd, MembersEnd, StringEnd, WordEnd, NumberEnd;
    var b := At(text, c.i);
    c' := c;
    if b == OPEN_BRACE {
      c' := ObjectLeads(text, c);
    } else if b == OPEN_BRACKET {
      c' := ArrayLeads(text, c);
    } else if b == QUOTE {
      c' := StringValueLeads(text, c);
    } else if b == 116 {
      c' := WordLeads(text, c, [114, 117, 101], Boolean);
      assert [b] + [114, 117, 101] == [116, 114, 117, 101];
    } else if b == 102 {
      c' := WordLeads(text, c, [97, 108, 115, 101], Boolean);
      assert [b] + [97, 108, 115, 101] == [102, 97, 108, 115, 101];
    } else if b == 110 {
      c' := WordLeads(text, c, [117, 108, 108], Null);
      assert [b] + [117, 108, 108] == [110, 117, 108, 108];
    } else if Digit(b) || b == MINUS {
      c' := NumberLeads(text, c);
    } else {
      NoValueFollows(text, c);
      ReadsNothing(text, c, c');
    }
  }

  lemma ReadsNothing(text: seq<byte>, c: Ctl, c': Ctl)
    requires Dead(text, c)
    ensures Reads(text, c, c, Missing, c')
  {
  }

  /** A value in a container, and the white space behind it. */
  lemma ContainedLeads(text: seq<byte>, c: Ctl) returns (c': Ctl)
    requires Seeking(c) && c.path != [] && c.i <= |text| <= UINT_MAX && !Space(At(text, c.i))
    requires At(text, c.i) == CLOSE_BRACKET ==> !Last(c.path).Array?
    ensures var v := ValueEnd(text, c.i);
            if v.Missing? then Dead(text, c)
            else
              && Leads(text, c, c') && Inv(c') && c'.path == c.path && c'.i == SpaceEnd(text, v.j) <= |text|
              && !Space(At(text, c'.i))
              && c'.f == Flags(true, Last(c.path).Array?, false, false, false, false)
    decreases |text| - c.i, 2
  {
    hide Inv, Leads, Dead, ValueEnd, SpaceEnd;
    var c1 := ValueLeads(text, c);
    c' := c1;
    if ValueEnd(text, c.i).Upto? {
      LeadsInv(text, c, c1);
      SeeksInContainer(c);
      c' := Spaced(text, c1);
      Through(text, c, c1, c');
    }
  }

  lemma SpaceEnds(text: seq<byte>, i: nat)
    ensures !Space(At(text, i)) ==> SpaceEnd(text, i) == i
  {
  }

  lemma ItemsLead(text: seq<byte>, c: Ctl) returns (c': Ctl)
    requires Seeking(c) && AtBracket(c) && c.i <= |text| <= UINT_MAX
    ensures Lists(text, c, ItemsEnd(text, c.i), CLOSE_BRACKET, c')
    decreases |text| - c.i, 4
  {
    hide Inv, Leads, Dead, ValueEnd, SpaceEnd;
    var c1 := Spaced(text, c);
    SpaceEnds(text, c1.i);
    assert ItemsEnd(text, c.i) == ItemsEnd(text, c1.i);
    if At(text, c1.i) == CLOSE_BRACKET {
      StaysPut(text, c1);
      c' := c1;
    } else {
      c' := ItemLeads(text, c1);
    }
    ListsThrough(text, c, c1, ItemsEnd(text, c.i), CLOSE_BRACKET, c');
  }

  /** An item, and what comes behind it. */
  lemma ItemLeads(text: seq<byte>, c: Ctl) returns (c': Ctl)
    requires Seeking(c) && AtBracket(c) && c.i <= |text| <= UINT_MAX && !Space(At(text, c.i))
        && At(text, c.i) != CLOSE_BRACKET
    ensures Lists(text, c, ItemsEnd(text, c.i), CLOSE_BRACKET, c')
    decreases |text| - c.i, 3
  {
    hide Inv, Leads, Dead, ValueEnd, SpaceEnd, Step;
    SpaceEnds(text, c.i);
    var c1 := ContainedLeads(text, c);
    c' := c1;
    if ValueEnd(text, c.i).Upto? {
      if At(text, c1.i) == CLOSE_BRACKET {
        StaysPut(text, c1);
      } else if At(text, c1.i) == COMMA {
        CommaStep(text, c1);
        StepLeads(text, c1);
        var c2 := Step(true, text, c1).c;
        LeadsInv(text, c1, c2);
        SeekingInArray(c1, c2);
        c' := ItemsLead(text, c2);
        ListsThrough(text, c1, c2, ItemsEnd(text, c2.i), CLOSE_BRACKET, c');
      } else {
        NoItemFollows(text, c1);
      }
      ListsThrough(text, c, c1, ItemsEnd(text, c.i), CLOSE_BRACKET, c');
    }
  }

  lemma SeekingInArray(c: Ctl, c': Ctl)
    requires AtBracket(c) && c'.path == c.path && Seeking(c')
    ensures AtBracket(c')
  {
  }

  lemma MembersLead(text: seq<byte>, c: Ctl) returns (c': Ctl)
    requires Inv(c) && InObject(c) && c.i <= |text| <= UINT_MAX
    ensures Lists(text, c, MembersEnd(text, c.i), CLOSE_BRACE, c')
    decreases |text| - c.i, 5
  {
    hide Inv, Leads, Dead, MemberEnd, SpaceEnd;
    var c1 := Spaced(text, c);
    SpaceEnds(text, c1.i);
    assert MembersEnd(text, c.i) == MembersEnd(text, c1.i);
    if At(text, c1.i) == CLOSE_BRACE {
      StaysPut(text, c1);
      c' := c1;
    } else {
      c' := OneMemberLeads(text, c1);
    }
    ListsThrough(text, c, c1, MembersEnd(text, c.i), CLOSE_BRACE, c');
  }

  /** A member, and what comes behind it. */
  lemma OneMemberLeads(text: seq<byte>, c: Ctl) returns (c': Ctl)
    requires Inv(c) && InObject(c) && c.i <= |text| <= UINT_MAX && !Space(At(text, c.i)) && At(text, c.i) != CLOSE_BRACE
    ensures Lists(text, c, MembersEnd(text, c.i), CLOSE_BRACE, c')
    decreases |text| - c.i, 4
  {
    hide Inv, Leads, Dead, MemberEnd, SpaceEnd, Step;
    SpaceEnds(text, c.i);
    var c1 := MemberLeads(text, c);
    c' := c1;
    if MemberEnd(text, c.i).Upto? {
      if At(text, c1.i) == CLOSE_BRACE {
        StaysPut(text, c1);
      } else if At(text, c1.i) == COMMA {
        CommaStep(text, c1);
        StepLeads(text, c1);
        var c2 := Step(true, text, c1).c;
        c' := MembersLead(text, c2);
        ListsThrough(text, c1, c2, MembersEnd(text, c2.i), CLOSE_BRACE, c');
      } else {
        NoMemberFollows(text, c1);
      }
      ListsThrough(text, c, c1, MembersEnd(text, c.i), CLOSE_BRACE, c');
    }
  }

  /** A name in its quotes. */
  lemma NameLeads(text: seq<byte>, c: Ctl) returns (c': Ctl)
    requires Inv(c) && InObject(c) && c.i <= |text| <= UINT_MAX && At(text, c.i) == QUOTE
    ensures var r := StringEnd(text, c.i + 1);
            if r.Missing? then Dead(text, c)
            else
              && Leads(text, c, c') && Inv(c') && c'.i == r.j && c'.path == c.path
              && c'.f == Flags(false, true, false, false, true, false)
  {
    hide Inv, Step, Leads, Dead, StringEnd;
    NameOpens(text, c);
    StepLeads(text, c);
    var c1 := Step(true, text, c).c;
    LeadsInv(text, c, c1);
    var c2 := StringLeads(text, c1);
    c' := c2;
    if StringEnd(text, c.i + 1).Upto? {
      LeadsInv(text, c1, c2);
      NameCloses(text, c2);
      StepLeads(text, c2);
      c' := Step(true, text, c2).c;
      LeadsInv(text, c2, c');
      Through(text, c1, c2, c');
    }
    Through(text, c, c1, c');
  }

  lemma MemberLeads(text: seq<byte>, c: Ctl) returns (c': Ctl)
    requires Inv(c) && InObject(c) && c.i <= |text| <= UINT_MAX && !Space(At(text, c.i)) && At(text, c.i) != CLOSE_BRACE
    ensures var v := MemberEnd(text, c.i);
            if v.Missing? then Dead(text, c)
            else
              && Leads(text, c, c') && AtBrace(c') && c'.path == c.path && c'.i == SpaceEnd(text, v.j) <= |text|
              && !Space(At(text, c'.i)) && c'.f == Flags(true, false, false, false, false, false)
    decreases |text| - c.i, 3
  {
    hide Inv, Leads, Dead, SpaceEnd, StringEnd, ValueEnd, Step;
    c' := c;
    if At(text, c.i) != QUOTE {
      NoMemberFollows(text, c);
    } else {
      var c1 := NameLeads(text, c);
      if StringEnd(text, c.i + 1).Upto? {
        LeadsInv(text, c, c1);
        var c2 := Spaced(text, c1);
        if At(text, c2.i) != COLON {
          NoColonFollows(text, c2);
        } else {
          ColonStep(text, c2);
          StepLeads(text, c2);
          var c3 := Step(true, text, c2).c;
          LeadsInv(text, c2, c3);
          var c4 := Spaced(text, c3);
          c' := ContainedLeads(text, c4);
          Through(text, c3, c4, c');
          Through(text, c2, c3, c');
        }
        Through(text, c1, c2, c');
        Through(text, c, c1, c');
      }
    }
  }

  // ---- The whole text ----

  lemma DoneEnds(text: seq<byte>, c: Ctl)
    requires Inv(c) && c.f.done && !c.f.inString && c.i <= |text| && !Space(At(text, c.i))
    ensures Run(true, text, c).Ok? <==> At(text, c.i) == 0
  {
  }

  /** json_parse_ex accepts exactly the texts of the language. */
  lemma LanguageIff(text: seq<byte>)
    requires |text| <= UINT_MAX
    ensures Run(true, text, Start()).Ok? <==> Accepted(text)
  {
    hide Run, Inv, Leads, Dead, SpaceEnd, ValueEnd;
    StartSeeks();
    var c := Spaced(text, Start());
    var c1 := ValueLeads(text, c);
    if ValueEnd(text, c.i).Upto? {
      LeadsInv(text, c, c1);
      var c2 := Spaced(text, c1);
      DoneEnds(text, c2);
      SameAnswer(text, c, c1);
      SameAnswer(text, c1, c2);
    } else {
      NoAnswer(text, c);
    }
    SameAnswer(text, Start(), c);
  }

  lemma SameAnswer(text: seq<byte>, c: Ctl, c': Ctl)
    requires Leads(text, c, c')
    ensures Inv(c) && Inv(c') && c.i <= |text| && c'.i <= |text|
        && (Run(true, text, c).Ok? <==> Run(true, text, c').Ok?)
  {
    hide Run, Inv;
  }

  lemma NoAnswer(text: seq<byte>, c: Ctl)
    requires Dead(text, c)
    ensures Inv(c) && c.i <= |text| && !Run(true, text, c).Ok?
  {
    hide Run, Inv;
  }
}
