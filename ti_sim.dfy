/**
 * The bookkeeping of `optimizer/ti_sim.py` around the SimNIBS kernels:
 * the enumeration of electrode-pair combinations, the
 * electrode-list prompt, the millivolt-to-volt conversion, the name of
 * the mesh file, the visible field and the progress label written for
 * each combination, and the loop that produces them.
 */
module TiSim {
  import opened Text
  import opened Wrappers
  import Paths

  type Electrode = string

  /** An (anode, cathode) pair of electrode labels. */
  type ElectrodePair = (Electrode, Electrode)

  /** ((e1+, e1-), (e2+, e2-)): one stimulation configuration. */
  type Combination = (ElectrodePair, ElectrodePair)

  // ---------------------------------------------------------------------
  // generate_combinations

  /** The pairs of `itertools.product` whose first component is `x`. */
  function Row<A, B>(x: A, ys: seq<B>): (r: seq<(A, B)>)
    ensures |r| == |ys|
    ensures forall k :: 0 <= k < |ys| ==> r[k] == (x, ys[k])
  {
    seq(|ys|, k requires 0 <= k < |ys| => (x, ys[k]))
  }

  /** `itertools.product(xs, ys)`: all pairs, the first component varying slowest. */
  function Product<A, B>(xs: seq<A>, ys: seq<B>): seq<(A, B)>
  {
    if xs == [] then [] else Product(xs[..|xs| - 1], ys) + Row(xs[|xs| - 1], ys)
  }

  /** The list `generate_combinations` returns: every (e1+, e1-) pair, in product
      order, combined with every (e2+, e2-) pair, in product order. */
  function Combinations(e1Plus: seq<Electrode>, e1Minus: seq<Electrode>,
                        e2Plus: seq<Electrode>, e2Minus: seq<Electrode>): seq<Combination>
  {
    Product(Product(e1Plus, e1Minus), Product(e2Plus, e2Minus))
  }

  /** The two nested loops over `product(...)` that append each combination. */
  method GenerateCombinations(e1Plus: seq<Electrode>, e1Minus: seq<Electrode>,
                              e2Plus: seq<Electrode>, e2Minus: seq<Electrode>)
    returns (combinations: seq<Combination>)
    ensures combinations == Combinations(e1Plus, e1Minus, e2Plus, e2Minus)
  {
    var outer := Product(e1Plus, e1Minus);
    var inner := Product(e2Plus, e2Minus);
    combinations := [];
    for i := 0 to |outer|
      invariant combinations == Product(outer[..i], inner)
    {
      for j := 0 to |inner|
        invariant combinations == Product(outer[..i], inner) + Row(outer[i], inner[..j])
      {
        assert Row(outer[i], inner[..j + 1]) == Row(outer[i], inner[..j]) + [(outer[i], inner[j])];
        combinations := combinations + [(outer[i], inner[j])];
      }
      assert inner[..|inner|] == inner;
      assert outer[..i + 1][..i] == outer[..i];
    }
    assert outer[..|outer|] == outer;
  }

  lemma {:induction false} ProductLength<A, B>(xs: seq<A>, ys: seq<B>)
    ensures |Product(xs, ys)| == |xs| * |ys|
  {
    if xs != [] {
      ProductLength(xs[..|xs| - 1], ys);
      assert (|xs| - 1) * |ys| + |ys| == |xs| * |ys|;
    }
  }

  /** The index `i * n + j` of row `i`, column `j` in a row-major layout of width `n`. */
  function Position(i: nat, n: nat, j: nat): nat
  {
    i * n + j
  }

  /** Position (a, b) of a product holds (xs[a], ys[b]). */
  lemma {:induction false} ProductAt<A, B>(xs: seq<A>, ys: seq<B>, a: nat, b: nat)
    requires a < |xs| && b < |ys|
    ensures Position(a, |ys|, b) < |Product(xs, ys)|
    ensures Product(xs, ys)[Position(a, |ys|, b)] == (xs[a], ys[b])
  {
    var init := xs[..|xs| - 1];
    ProductLength(init, ys);
    ProductLength(xs, ys);
    if a == |xs| - 1 {
      assert a * |ys| == |Product(init, ys)|;
    } else {
      ProductAt(init, ys, a, b);
    }
  }

  lemma {:induction false} RowCount<A, B>(x: A, ys: seq<B>, a: A, b: B)
    ensures multiset(Row(x, ys))[(a, b)] == if x == a then multiset(ys)[b] else 0
  {
    if ys != [] {
      var init := ys[..|ys| - 1];
      assert Row(x, ys) == Row(x, init) + [(x, ys[|ys| - 1])];
      assert ys == init + [ys[|ys| - 1]];
      RowCount(x, init, a, b);
    } else {
      assert Row(x, ys) == [];
    }
  }

  /** A pair occurs in a product as often as the product of its components' occurrences. */
  lemma {:induction false} ProductCount<A, B>(xs: seq<A>, ys: seq<B>, a: A, b: B)
    ensures multiset(Product(xs, ys))[(a, b)] == multiset(xs)[a] * multiset(ys)[b]
  {
    if xs != [] {
      var init := xs[..|xs| - 1];
      var x := xs[|xs| - 1];
      ProductCount(init, ys, a, b);
      RowCount(x, ys, a, b);
      assert xs == init + [x];
      var d := if x == a then 1 else 0;
      assert multiset(xs)[a] == multiset(init)[a] + d;
      assert (multiset(init)[a] + d) * multiset(ys)[b] == multiset(init)[a] * multiset(ys)[b] + d * multiset(ys)[b];
    }
  }

  /** There are |E1+|·|E1-|·|E2+|·|E2-| combinations. */
  lemma {:induction false} CombinationCount(e1Plus: seq<Electrode>, e1Minus: seq<Electrode>,
                         e2Plus: seq<Electrode>, e2Minus: seq<Electrode>)
    ensures |Combinations(e1Plus, e1Minus, e2Plus, e2Minus)|
         == |e1Plus| * |e1Minus| * |e2Plus| * |e2Minus|
  {
    ProductLength(e1Plus, e1Minus);
    ProductLength(e2Plus, e2Minus);
    ProductLength(Product(e1Plus, e1Minus), Product(e2Plus, e2Minus));
    MulAssoc(|e1Plus| * |e1Minus|, |e2Plus|, |e2Minus|);
  }

  lemma MulAssoc(x: int, y: int, z: int)
    ensures x * (y * z) == x * y * z
  {
  }

  /** e1+ is the outermost loop and e2- the innermost: the combination at index
      ((a·|E1-| + b)·|E2+| + c)·|E2-| + d is ((E1+[a], E1-[b]), (E2+[c], E2-[d])). */
  lemma {:induction false} CombinationAt(e1Plus: seq<Electrode>, e1Minus: seq<Electrode>,
                      e2Plus: seq<Electrode>, e2Minus: seq<Electrode>,
                      a: nat, b: nat, c: nat, d: nat)
    requires a < |e1Plus| && b < |e1Minus| && c < |e2Plus| && d < |e2Minus|
    ensures var k := Position(Position(Position(a, |e1Minus|, b), |e2Plus|, c), |e2Minus|, d);
            k < |Combinations(e1Plus, e1Minus, e2Plus, e2Minus)|
            && Combinations(e1Plus, e1Minus, e2Plus, e2Minus)[k]
               == ((e1Plus[a], e1Minus[b]), (e2Plus[c], e2Minus[d]))
  {
    var outer := Product(e1Plus, e1Minus);
    var inner := Product(e2Plus, e2Minus);
    var i := Position(a, |e1Minus|, b);
    var j := Position(c, |e2Minus|, d);
    ProductAt(e1Plus, e1Minus, a, b);
    ProductAt(e2Plus, e2Minus, c, d);
    ProductLength(e2Plus, e2Minus);
    ProductAt(outer, inner, i, j);
    IndexLaw(i, |e2Plus|, |e2Minus|, c, d);
  }

  lemma IndexLaw(i: nat, p: nat, m: nat, c: nat, d: nat)
    ensures Position(i, p * m, Position(c, m, d)) == Position(Position(i, p, c), m, d)
  {
    assert i * (p * m) + (c * m + d) == (i * p + c) * m + d;
  }

  /** No deduplication: a combination occurs as often as the product of the
      occurrences of its four electrodes in their lists. */
  lemma {:induction false} CombinationMultiplicity(e1Plus: seq<Electrode>, e1Minus: seq<Electrode>,
                                e2Plus: seq<Electrode>, e2Minus: seq<Electrode>,
                                c: Combination)
    ensures multiset(Combinations(e1Plus, e1Minus, e2Plus, e2Minus))[c]
         == multiset(e1Plus)[c.0.0] * multiset(e1Minus)[c.0.1]
          * multiset(e2Plus)[c.1.0] * multiset(e2Minus)[c.1.1]
  {
    ProductCount(Product(e1Plus, e1Minus), Product(e2Plus, e2Minus), c.0, c.1);
    ProductCount(e1Plus, e1Minus, c.0.0, c.0.1);
    ProductCount(e2Plus, e2Minus, c.1.0, c.1.1);
    var w, x, y, z := multiset(e1Plus)[c.0.0], multiset(e1Minus)[c.0.1], multiset(e2Plus)[c.1.0], multiset(e2Minus)[c.1.1];
    MulAssoc(w * x, y, z);
  }

  // ---------------------------------------------------------------------
  // get_electrode_list and get_intensity

  function StripEach(parts: seq<string>): (r: seq<string>)
    ensures |r| == |parts|
    ensures forall i :: 0 <= i < |parts| ==> r[i] == Strip(parts[i])
  {
    seq(|parts|, i requires 0 <= i < |parts| => Strip(parts[i]))
  }

  /** The tokens of one stripped answer: comma-separated and each stripped when
      the answer holds a comma, whitespace-separated otherwise. */
  function ElectrodeTokens(answer: string): seq<string>
  {
    var s := Strip(answer);
    if ',' in s then StripEach(SplitOn(s, ',')) else SplitWhitespace(s)
  }

  /** One answer to the electrode prompt: the list when every token is non-empty,
      `None` when the prompt is repeated. */
  function ParseElectrodeList(answer: string): Option<seq<Electrode>>
  {
    var tokens := ElectrodeTokens(answer);
    if NoneEmpty(tokens) then Some(tokens) else None
  }

  predicate NoneEmpty(tokens: seq<string>) {
    forall i :: 0 <= i < |tokens| ==> tokens[i] != ""
  }

  /** No piece of a comma-separated answer is blank. */
  predicate NoBlankPiece(pieces: seq<string>) {
    forall i :: 0 <= i < |pieces| ==> Strip(pieces[i]) != ""
  }

  /** Without a comma the answer is split on whitespace and always accepted. */
  lemma {:induction false} WhitespaceAnswerAccepted(answer: string)
    requires ',' !in answer
    ensures ParseElectrodeList(answer) == Some(SplitWhitespace(Strip(answer)))
  {
    var s := Strip(answer);
    StripKeeps(answer, ',');
    assert ElectrodeTokens(answer) == SplitWhitespace(s);
    var words := SplitWhitespace(s);
    SplitWhitespaceWords(s);
    assert NoneEmpty(words) by {
      forall i | 0 <= i < |words| ensures words[i] != "" {
        assert IsWord(words[i]);
      }
    }
  }

  /** An empty (or blank) answer is accepted as the empty list. */
  lemma {:induction false} BlankAnswerAccepted(answer: string)
    requires forall i :: 0 <= i < |answer| ==> IsSpace(answer[i])
    ensures ParseElectrodeList(answer) == Some([])
  {
    BlankStrip(answer);
    WhitespaceAnswerAccepted(answer);
  }

  /** With a comma the answer is accepted iff no comma-separated piece is blank. */
  lemma {:induction false} CommaAnswerAcceptance(answer: string)
    requires ',' in answer
    ensures ParseElectrodeList(answer).Some? <==> NoBlankPiece(SplitOn(Strip(answer), ','))
  {
    var s := Strip(answer);
    StripKeeps(answer, ',');
    var pieces := SplitOn(s, ',');
    var tokens := StripEach(pieces);
    assert ElectrodeTokens(answer) == tokens;
    assert NoneEmpty(tokens) <==> NoBlankPiece(pieces);
  }

  /** An empty piece between two commas sends the prompt round again. */
  lemma DoubleCommaRejected()
    ensures ParseElectrodeList("a,,b") == None
  {
    var s := "a,,b";
    assert Trimmed(s) by { assert s[0] == 'a' && s[|s| - 1] == 'b'; }
    StripTrimmed(s);
    SplitDoubleComma();
    assert ElectrodeTokens(s)[1] == "";
  }

  lemma SplitDoubleComma()
    ensures SplitOn("a,,b", ',') == ["a", "", "b"]
  {
    SplitOnNoSeparator("b", ',');
    SplitOnAfterPiece("", "b", ',');
    SplitOnAfterPiece("a", ",b", ',');
    assert "a" + [','] + ",b" == "a,,b";
    assert "" + [','] + "b" == ",b";
  }

  lemma {:induction false} JoinWithAvoids(parts: seq<string>, sep: string, c: char)
    requires c !in sep
    requires forall i :: 0 <= i < |parts| ==> c !in parts[i]
    ensures c !in JoinWith(parts, sep)
  {
    if |parts| > 1 {
      JoinWithAvoids(parts[1..], sep, c);
    }
  }

  lemma {:induction false} JoinWithEnds(parts: seq<string>, sep: string)
    requires |parts| >= 1 && forall i :: 0 <= i < |parts| ==> parts[i] != []
    ensures var j := JoinWith(parts, sep);
            var last := parts[|parts| - 1];
            |j| >= 1 && j[0] == parts[0][0] && j[|j| - 1] == last[|last| - 1]
  {
    if |parts| > 1 {
      JoinWithEnds(parts[1..], sep);
    }
  }

  /** Labels as one types them at the prompt: non-empty, without whitespace or commas. */
  predicate PlainLabels(labels: seq<Electrode>) {
    forall i :: 0 <= i < |labels| ==> IsWord(labels[i]) && ',' !in labels[i]
  }

  /** Labels typed separated by spaces come back as typed. */
  lemma {:induction false} SpacedListRoundTrip(labels: seq<Electrode>)
    requires |labels| >= 1 && PlainLabels(labels)
    ensures ParseElectrodeList(JoinWith(labels, " ")) == Some(labels)
  {
    var spaced := JoinWith(labels, " ");
    JoinWithEnds(labels, " ");
    JoinWithAvoids(labels, " ", ',');
    StripTrimmed(spaced);
    SplitWhitespaceJoin(labels);
    WhitespaceAnswerAccepted(spaced);
  }

  /** Labels typed separated by commas come back as typed. */
  lemma {:induction false} CommaListRoundTrip(labels: seq<Electrode>)
    requires |labels| >= 2 && PlainLabels(labels)
    ensures ParseElectrodeList(JoinWith(labels, ",")) == Some(labels)
  {
    var commas := JoinWith(labels, ",");
    JoinWithEnds(labels, ",");
    StripTrimmed(commas);
    assert ',' in commas by {
      assert commas == labels[0] + "," + JoinWith(labels[1..], ",");
      assert commas[|labels[0]|] == ',';
    }
    SplitOnJoin(labels, ',');
    forall i | 0 <= i < |labels| ensures Strip(labels[i]) == labels[i] {
      StripTrimmed(labels[i]);
    }
    assert StripEach(labels) == labels;
    assert NoneEmpty(labels);
  }

  /** Electrode labels typed separated by spaces, or by commas, come back as typed. */
  lemma {:induction false} ElectrodeListRoundTrip(labels: seq<Electrode>)
    requires |labels| >= 1 && PlainLabels(labels)
    ensures ParseElectrodeList(JoinWith(labels, " ")) == Some(labels)
    ensures ParseElectrodeList(JoinWith(labels, ",")) == Some(labels)
  {
    SpacedListRoundTrip(labels);
    if |labels| == 1 {
      assert JoinWith(labels, ",") == JoinWith(labels, " ");
    } else {
      CommaListRoundTrip(labels);
    }
  }

  /** The prompt loop of `get_electrode_list` for an answer parser `parse`: the value of
      the first answer from the `i`-th on that `parse` accepts, `None` when none is. */
  function FirstParsedFrom<T>(answers: seq<string>, i: nat, parse: string -> Option<T>): Option<T>
    requires i <= |answers|
    decreases |answers| - i
  {
    if i == |answers| then None
    else if parse(answers[i]).Some? then parse(answers[i])
    else FirstParsedFrom(answers, i + 1, parse)
  }

  /** Each of the first `n` answers made the prompt repeat. */
  predicate RejectedBefore<T>(answers: seq<string>, n: nat, parse: string -> Option<T>)
    requires n <= |answers|
  {
    forall k :: 0 <= k < n ==> parse(answers[k]).None?
  }

  /** Asking until `parse` accepts an answer; `used` counts the answers read. */
  method PromptUntilAccepted<T>(answers: seq<string>, parse: string -> Option<T>)
    returns (value: Option<T>, used: nat)
    ensures value == FirstParsedFrom(answers, 0, parse)
    ensures value.Some? ==> 1 <= used <= |answers| && RejectedBefore(answers, used - 1, parse)
                            && value == parse(answers[used - 1])
    ensures value.None? ==> used == |answers| && RejectedBefore(answers, |answers|, parse)
  {
    var i := 0;
    while i < |answers|
      invariant i <= |answers|
      invariant RejectedBefore(answers, i, parse)
      invariant FirstParsedFrom(answers, 0, parse) == FirstParsedFrom(answers, i, parse)
    {
      var attempt := parse(answers[i]);
      if attempt.Some? {
        return attempt, i + 1;
      }
      i := i + 1;
    }
    return None, i;
  }

  /** The prompt loop ends iff some answer is accepted. */
  lemma {:induction false} FirstParsedNone<T>(answers: seq<string>, i: nat, parse: string -> Option<T>)
    requires i <= |answers|
    ensures FirstParsedFrom(answers, i, parse).None? <==> forall k :: i <= k < |answers| ==> parse(answers[k]).None?
    decreases |answers| - i
  {
    if i < |answers| {
      FirstParsedNone(answers, i + 1, parse);
    }
  }

  /** The list `get_electrode_list` returns for a run of answers to its prompt. */
  function FirstAccepted(answers: seq<string>): Option<seq<Electrode>>
  {
    FirstParsedFrom(answers, 0, ParseElectrodeList)
  }

  /** `get_electrode_list`, reading its answers from `answers`. */
  method GetElectrodeList(answers: seq<string>) returns (electrodes: Option<seq<Electrode>>, used: nat)
    ensures electrodes == FirstAccepted(answers)
    ensures electrodes.Some? ==> 1 <= used <= |answers| && RejectedBefore(answers, used - 1, ParseElectrodeList)
                                 && electrodes == ParseElectrodeList(answers[used - 1])
    ensures electrodes.None? ==> used == |answers| && RejectedBefore(answers, |answers|, ParseElectrodeList)
  {
    electrodes, used := PromptUntilAccepted(answers, ParseElectrodeList);
  }

  /** An answer without a comma ends the prompt loop at once. */
  lemma {:induction false} CommaFreeAnswerEndsPrompt(answers: seq<string>)
    requires |answers| >= 1 && ',' !in answers[0]
    ensures FirstAccepted(answers) == Some(SplitWhitespace(Strip(answers[0])))
  {
    WhitespaceAnswerAccepted(answers[0]);
  }

  /** `get_intensity`: the entered millivolts as volts. */
  function MillivoltsToVolts(millivolts: real): (volts: real)
    ensures volts * 1000.0 == millivolts
    ensures millivolts == 50.0 ==> volts == 0.05
  {
    millivolts / 1000.0
  }

  /** `get_intensity`, reading its answers from `answers`; `millivolts` stands for `float`
      on the stripped answer, `None` where it raises `ValueError` and the prompt repeats. */
  method GetIntensity(answers: seq<string>, millivolts: string -> Option<real>)
    returns (volts: Option<real>, used: nat)
    ensures volts.Some? ==> && 1 <= used <= |answers| && RejectedBefore(answers, used - 1, millivolts)
                            && millivolts(answers[used - 1]).Some?
                            && volts.value == MillivoltsToVolts(millivolts(answers[used - 1]).value)
    ensures volts.None? ==> used == |answers| && RejectedBefore(answers, |answers|, millivolts)
  {
    var entered;
    entered, used := PromptUntilAccepted(answers, millivolts);
    volts := if entered.Some? then Some(MillivoltsToVolts(entered.value)) else None;
  }

  // ---------------------------------------------------------------------
  // process_leadfield: names, visible field, progress label

  /** `{e1p}_{e1m}_and_{e2p}_{e2m}`. */
  function CombinationTag(c: Combination): string
  {
    JoinWith([c.0.0, c.0.1, "and", c.1.0, c.1.1], "_")
  }

  /** The mesh file name for a combination: `TI_norm_field_…` on the "gm" leadfield,
      `TI_field_…` on any other. */
  function MeshFileName(leadfieldType: string, c: Combination): string
  {
    (if leadfieldType == "gm" then "TI_norm_field_" else "TI_field_") + CombinationTag(c) + ".msh"
  }

  /** The field the combination's TI amplitude is stored and shown under. */
  function VisibleField(leadfieldType: string): string
  {
    if leadfieldType == "gm" then "TIamp_localnorm" else "TImax"
  }

  /** `f"{i+1:03}/{total}"`. */
  function ProgressLabel(i: nat, total: nat): string
  {
    ZeroPad(Decimal(i + 1), 3) + "/" + Decimal(total)
  }

  /** Reads a mesh file name back: whether it is a "gm" name, and the combination. */
  function ParseMeshFileName(name: string): Option<(bool, Combination)>
  {
    var gm := "TI_norm_field_" <= name;
    var start := if gm then 14 else 9;
    if (gm || "TI_field_" <= name) && |name| >= start + 4 && name[|name| - 4..] == ".msh" then
      var parts := SplitOn(name[start..|name| - 4], '_');
      if |parts| == 5 && parts[2] == "and" then
        Some((gm, ((parts[0], parts[1]), (parts[3], parts[4]))))
      else None
    else None
  }

  predicate NoUnderscores(c: Combination) {
    '_' !in c.0.0 && '_' !in c.0.1 && '_' !in c.1.0 && '_' !in c.1.1
  }

  /** With labels free of `_`, the file name determines the variant and the combination. */
  lemma {:induction false} MeshFileNameRoundTrip(leadfieldType: string, c: Combination)
    requires NoUnderscores(c)
    ensures ParseMeshFileName(MeshFileName(leadfieldType, c)) == Some((leadfieldType == "gm", c))
  {
    MeshFileNameShape(leadfieldType, c);
    var parts := [c.0.0, c.0.1, "and", c.1.0, c.1.1];
    assert forall i :: 0 <= i < |parts| ==> '_' !in parts[i];
    SplitOnJoin(parts, '_');
  }

  /** The prefix tells the leadfield, and the tag lies between the prefix and `.msh`. */
  lemma MeshFileNameShape(leadfieldType: string, c: Combination)
    ensures var name := MeshFileName(leadfieldType, c);
            var start := if leadfieldType == "gm" then 14 else 9;
            && ("TI_norm_field_" <= name <==> leadfieldType == "gm")
            && (leadfieldType == "gm" || "TI_field_" <= name)
            && |name| >= start + 4 && name[|name| - 4..] == ".msh"
            && name[start..|name| - 4] == CombinationTag(c)
  {
    var tag := CombinationTag(c);
    var prefix := if leadfieldType == "gm" then "TI_norm_field_" else "TI_field_";
    var name := MeshFileName(leadfieldType, c);
    assert name == prefix + tag + ".msh";
    assert name[..|prefix|] == prefix;
    assert name[|name| - 4..] == ".msh";
    assert name[|prefix|..|name| - 4] == tag;
    if leadfieldType != "gm" {
      assert name[3] == 'f';
    }
  }

  /** Two combinations with `_`-free labels never share a mesh file name. */
  lemma {:induction false} MeshFileNameInjective(leadfieldType: string, c1: Combination, c2: Combination)
    requires NoUnderscores(c1) && NoUnderscores(c2)
    requires MeshFileName(leadfieldType, c1) == MeshFileName(leadfieldType, c2)
    ensures c1 == c2
  {
    MeshFileNameRoundTrip(leadfieldType, c1);
    MeshFileNameRoundTrip(leadfieldType, c2);
  }

  /** Labels with `_` can collide: these two combinations write the same file. */
  lemma {:induction false} MeshFileNameCollision()
    ensures var c1 := (("E1_E2", "E3"), ("E4", "E5"));
            var c2 := (("E1", "E2_E3"), ("E4", "E5"));
            c1 != c2 && MeshFileName("vol", c1) == MeshFileName("vol", c2)
  {
    var c1 := (("E1_E2", "E3"), ("E4", "E5"));
    var c2 := (("E1", "E2_E3"), ("E4", "E5"));
    assert c1.0.0 != c2.0.0 by { assert |c1.0.0| != |c2.0.0|; }
    var rest := ["and", "E4", "E5"];
    JoinWithFirstTwo("E1_E2", "E3", rest, "_");
    JoinWithFirstTwo("E1", "E2_E3", rest, "_");
    assert "E1_E2" + "_" + "E3" + "_" == "E1" + "_" + "E2_E3" + "_";
  }

  lemma JoinWithFirstTwo(a: string, b: string, rest: seq<string>, sep: string)
    requires rest != []
    ensures JoinWith([a, b] + rest, sep) == a + sep + b + sep + JoinWith(rest, sep)
  {
    var parts := [a, b] + rest;
    assert parts[1..] == [b] + rest;
    assert ([b] + rest)[1..] == rest;
  }

  /** The progress label splits at `/` into a zero-padded ordinal of at least three
      digits that reads back as i + 1, and the total. */
  lemma {:induction false} ProgressLabelReadsBack(i: nat, total: nat)
    ensures var parts := SplitOn(ProgressLabel(i, total), '/');
            && |parts| == 2
            && AllDigits(parts[0]) && AllDigits(parts[1])
            && DecimalValue(parts[0]) == i + 1
            && DecimalValue(parts[1]) == total
            && |parts[0]| >= 3
            && (i + 1 < 1000 ==> |parts[0]| == 3)
  {
    var padded := ZeroPad(Decimal(i + 1), 3);
    PaddedOrdinal(i);
    DecimalRoundTrip(total);
    var parts := [padded, Decimal(total)];
    assert ProgressLabel(i, total) == JoinWith(parts, "/");
    assert '/' !in padded && '/' !in Decimal(total);
    SplitOnJoin(parts, '/');
  }

  /** The `:03` ordinal: at least three digits, exactly three below 1000, read back as i + 1. */
  lemma PaddedOrdinal(i: nat)
    ensures var padded := ZeroPad(Decimal(i + 1), 3);
            && AllDigits(padded) && DecimalValue(padded) == i + 1
            && |padded| >= 3 && (i + 1 < 1000 ==> |padded| == 3)
  {
    var digits := Decimal(i + 1);
    if |digits| < 3 {
      LeadingZerosValue(3 - |digits|, digits);
    }
    DecimalRoundTrip(i + 1);
    if i + 1 < 1000 {
      DecimalShort(i + 1);
    }
  }

  // ---------------------------------------------------------------------
  // The loop of process_leadfield

  /** `Simulations/opt_{subject}` under the project directory: where the meshes go. */
  function OutputDir(projectDir: string, subjectName: string): string
  {
    Paths.Join(projectDir, "Simulations/opt_" + subjectName)
  }

  /** The leadfield file of a variant: `Subjects/leadfield_{type}_{subject}` under the
      project, file `{subject}_leadfield_{cap}.hdf5`, the cap being `EEG_CAP` or
      `EGI_template` when that is unset. */
  function LeadfieldPath(projectDir: string, leadfieldType: string, subjectName: string,
                         eegCap: Option<string>): string
  {
    var cap := if eegCap.Some? then eegCap.value else "EGI_template";
    Paths.Join(Paths.Join(projectDir, "Subjects/leadfield_" + leadfieldType + "_" + subjectName),
               subjectName + "_leadfield_" + cap + ".hdf5")
  }

  /** The leadfield file name ends in the cap name, the default one when the cap is unset. */
  lemma LeadfieldFileName(projectDir: string, leadfieldType: string, subjectName: string,
                          eegCap: Option<string>)
    requires '/' !in subjectName && (eegCap.Some? ==> '/' !in eegCap.value)
    ensures Paths.BaseName(LeadfieldPath(projectDir, leadfieldType, subjectName, eegCap))
         == subjectName + "_leadfield_" + (if eegCap.Some? then eegCap.value else "EGI_template") + ".hdf5"
  {
    var cap := if eegCap.Some? then eegCap.value else "EGI_template";
    var name := subjectName + "_leadfield_" + cap + ".hdf5";
    assert '/' !in name;
    Paths.BaseNameOfJoin(Paths.Join(projectDir, "Subjects/leadfield_" + leadfieldType + "_" + subjectName), name);
  }

  /** What one iteration writes and prints: the mesh path, the field made visible
      in its view file, and the progress label. */
  datatype SavedMesh = SavedMesh(path: string, visibleField: string, progress: string)

  function SavedRecord(outputDir: string, leadfieldType: string, c: Combination, i: nat, total: nat): SavedMesh
  {
    SavedMesh(Paths.Join(outputDir, MeshFileName(leadfieldType, c)), VisibleField(leadfieldType), ProgressLabel(i, total))
  }

  predicate NoSlashes(c: Combination) {
    '/' !in c.0.0 && '/' !in c.0.1 && '/' !in c.1.0 && '/' !in c.1.1
  }

  /** With labels free of `/`, each mesh is written directly in the output directory,
      under the name of its combination and variant. */
  lemma SavedRecordFile(outputDir: string, leadfieldType: string, c: Combination, i: nat, total: nat)
    requires NoSlashes(c)
    ensures Paths.BaseName(SavedRecord(outputDir, leadfieldType, c, i, total).path) == MeshFileName(leadfieldType, c)
  {
    JoinWithAvoids([c.0.0, c.0.1, "and", c.1.0, c.1.1], "_", '/');
    Paths.BaseNameOfJoin(outputDir, MeshFileName(leadfieldType, c));
  }

  /** `saved` holds, in order, the records of the first |saved| combinations of
      `all`, none of which raised. */
  predicate SavedInOrder(saved: seq<SavedMesh>, all: seq<Combination>, outputDir: string,
                         leadfieldType: string, raises: Combination -> bool)
  {
    && |saved| <= |all|
    && forall k :: 0 <= k < |saved| ==>
         !raises(all[k]) && saved[k] == SavedRecord(outputDir, leadfieldType, all[k], k, |all|)
  }

  lemma SavedInOrderStep(saved: seq<SavedMesh>, all: seq<Combination>, outputDir: string,
                         leadfieldType: string, raises: Combination -> bool)
    requires SavedInOrder(saved, all, outputDir, leadfieldType, raises)
    requires |saved| < |all| && !raises(all[|saved|])
    ensures SavedInOrder(saved + [SavedRecord(outputDir, leadfieldType, all[|saved|], |saved|, |all|)],
                         all, outputDir, leadfieldType, raises)
  {
  }

  /** Why a leadfield run ended early: `TI.load_leadfield` raised before the loop (a
      missing or unreadable leadfield file), or a kernel raised on a combination. */
  datatype RunFailure = LeadfieldNotLoaded | CombinationRaised(combination: Combination)

  /** `process_leadfield`: the loading of the leadfield, then the loop over all
      combinations. `loadRaises` says whether `TI.load_leadfield` raises; `raises` says
      for which combinations the SimNIBS kernels (`get_field`, `get_maxTI`, `get_dirTI`)
      raise. No handler catches either, so the run stops there with the earlier meshes
      written. */
  method ProcessLeadfield(leadfieldType: string,
                          e1Plus: seq<Electrode>, e1Minus: seq<Electrode>,
                          e2Plus: seq<Electrode>, e2Minus: seq<Electrode>,
                          projectDir: string, subjectName: string,
                          loadRaises: bool, raises: Combination -> bool)
    returns (saved: seq<SavedMesh>, failed: Option<RunFailure>)
    ensures var all := Combinations(e1Plus, e1Minus, e2Plus, e2Minus);
            && SavedInOrder(saved, all, OutputDir(projectDir, subjectName), leadfieldType, raises)
            && (loadRaises ==> saved == [] && failed == Some(LeadfieldNotLoaded))
            && (failed.None? <==> !loadRaises && |saved| == |all|)
            && (!loadRaises && failed.Some? ==>
                  |saved| < |all| && failed == Some(CombinationRaised(all[|saved|])) && raises(all[|saved|]))
  {
    saved := [];
    if loadRaises {
      return [], Some(LeadfieldNotLoaded);
    }
    var outputDir := OutputDir(projectDir, subjectName);
    var all := GenerateCombinations(e1Plus, e1Minus, e2Plus, e2Minus);
    failed := None;
    var i := 0;
    while i < |all|
      invariant i == |saved|
      invariant SavedInOrder(saved, all, outputDir, leadfieldType, raises)
    {
      if raises(all[i]) {
        failed := Some(CombinationRaised(all[i]));
        return;
      }
      SavedInOrderStep(saved, all, outputDir, leadfieldType, raises);
      saved := saved + [SavedRecord(outputDir, leadfieldType, all[i], i, |all|)];
      i := i + 1;
    }
  }

  /** The script's main block: the "gm" leadfield, then the "vol" one; an exception in
      the first run, at its loading or in its loop, ends the script before the second. */
  method RunBothLeadfields(e1Plus: seq<Electrode>, e1Minus: seq<Electrode>,
                           e2Plus: seq<Electrode>, e2Minus: seq<Electrode>,
                           projectDir: string, subjectName: string,
                           loadRaisesGm: bool, raisesGm: Combination -> bool,
                           loadRaisesVol: bool, raisesVol: Combination -> bool)
    returns (gm: seq<SavedMesh>, vol: seq<SavedMesh>, failed: Option<RunFailure>)
    ensures var all := Combinations(e1Plus, e1Minus, e2Plus, e2Minus);
            var outputDir := OutputDir(projectDir, subjectName);
            && SavedInOrder(gm, all, outputDir, "gm", raisesGm)
            && SavedInOrder(vol, all, outputDir, "vol", raisesVol)
            && (loadRaisesGm ==> gm == [] && vol == [] && failed == Some(LeadfieldNotLoaded))
            && (!loadRaisesGm && |gm| < |all| ==>
                  vol == [] && failed == Some(CombinationRaised(all[|gm|])) && raisesGm(all[|gm|]))
            && (!loadRaisesGm && |gm| == |all| && loadRaisesVol ==>
                  vol == [] && failed == Some(LeadfieldNotLoaded))
            && (!loadRaisesGm && |gm| == |all| && !loadRaisesVol && failed.Some? ==>
                  |vol| < |all| && failed == Some(CombinationRaised(all[|vol|])) && raisesVol(all[|vol|]))
            && (failed.None? <==> !loadRaisesGm && !loadRaisesVol && |gm| == |all| && |vol| == |all|)
  {
    var f;
    gm, f := ProcessLeadfield("gm", e1Plus, e1Minus, e2Plus, e2Minus, projectDir, subjectName, loadRaisesGm, raisesGm);
    if f.Some? {
      return gm, [], f;
    }
    vol, failed := ProcessLeadfield("vol", e1Plus, e1Minus, e2Plus, e2Minus, projectDir, subjectName,
                                    loadRaisesVol, raisesVol);
  }

  /** A blank electrode list, which the prompt accepts, gives no combination at all: the
      loading of the leadfield is then the only step of a run that can fail. */
  lemma BlankListNoCombination(e1Minus: seq<Electrode>, e2Plus: seq<Electrode>, e2Minus: seq<Electrode>)
    ensures Combinations([], e1Minus, e2Plus, e2Minus) == []
  {
    CombinationCount([], e1Minus, e2Plus, e2Minus);
  }

  /** The example of the documentation: E1+ = [E1], E1- = [E2], E2+ = [E3, E4],
      E2- = [E5] gives exactly ((E1,E2),(E3,E5)) then ((E1,E2),(E4,E5)). */
  lemma {:induction false} TwoCombinationExample()
    ensures Combinations(["E1"], ["E2"], ["E3", "E4"], ["E5"])
         == [(("E1", "E2"), ("E3", "E5")), (("E1", "E2"), ("E4", "E5"))]
  {
    assert Product(["E1"], ["E2"]) == [("E1", "E2")] by {
      assert ["E1"][..0] == [];
    }
    assert Product(["E3", "E4"], ["E5"]) == [("E3", "E5"), ("E4", "E5")] by {
      assert ["E3", "E4"][..1] == ["E3"];
      assert ["E3"][..0] == [];
    }
    var outer := [("E1", "E2")];
    assert outer[..0] == [];
  }
}
