/** The labelled metric vectors of the Prometheus registry. A series is found under one string,
    built by escaping and concatenating its label values, so everything here rests on that
    string being uniquely decodable. Characters stand for the bytes the encoder walks over. */
module Metrics {
  import opened Prelude
  import opened Sorting

  datatype Label = Label(name: string, value: string)

  // ---- The encoder ----

  function EscapeChar(c: char): string
  {
    if c == '\\' then "\\\\" else if c == '"' then "\\\"" else if c == '\n' then "\\n" else [c]
  }

  function Escape(s: string): string
  {
    if s == "" then "" else EscapeChar(s[0]) + Escape(s[1..])
  }

  lemma EscapeStep(b: string, s: string, i: nat)
    requires i < |s|
    ensures b + Escape(s[i..]) == b + EscapeChar(s[i]) + Escape(s[i + 1..])
  {
    assert s[i..][1..] == s[i + 1..];
  }

  method EscapeLabelValue(s: string) returns (b: string)
    ensures b == Escape(s)
  {
    b := "";
    for i := 0 to |s|
      invariant b + Escape(s[i..]) == Escape(s)
    {
      EscapeStep(b, s, i);
      match s[i]
      case '\\' => b := b + "\\\\";
      case '"' => b := b + "\\\"";
      case '\n' => b := b + "\\n";
      case c => b := b + [c];
    }
  }

  function Item(l: Label): string
  {
    l.name + "=\"" + Escape(l.value) + "\""
  }

  /** The items of `labels`, a comma before each except possibly the first. */
  function Items(labels: seq<Label>, comma: bool): string
  {
    if labels == [] then ""
    else (if comma then "," else "") + Item(labels[0]) + Items(labels[1..], true)
  }

  predicate NameLe(a: Label, b: Label) { StringLe(a.name, b.name) }

  function Format(labels: seq<Label>): string
  {
    if labels == [] then "" else "{" + Items(Sort(NameLe, labels), false) + "}"
  }

  lemma ItemsStep(r: string, labels: seq<Label>, i: nat)
    requires i < |labels|
    ensures r + Items(labels[i..], i > 0)
            == r + ((if i > 0 then "," else "") + Item(labels[i])) + Items(labels[i + 1..], true)
  {
    hide Item;
    assert labels[i..][1..] == labels[i + 1..];
  }

  lemma ItemInPieces(r: string, separator: string, l: Label)
    ensures r + separator + l.name + "=\"" + Escape(l.value) + "\"" == r + (separator + Item(l))
  {
  }

  method FormatLabels(labels: seq<Label>) returns (r: string)
    ensures r == Format(labels)
  {
    hide Item, Escape;
    if |labels| == 0 { return ""; }
    var sorted := Sort(NameLe, labels);
    r := "{";
    for i := 0 to |sorted|
      invariant r + Items(sorted[i..], i > 0) == "{" + Items(sorted, false)
    {
      var l := sorted[i];
      ItemsStep(r, sorted, i);
      ghost var before := r;
      if i > 0 { r := r + ","; }
      r := r + l.name;
      r := r + "=\"";
      var escaped := EscapeLabelValue(l.value);
      r := r + escaped;
      r := r + "\"";
      ItemInPieces(before, if i > 0 then "," else "", l);
    }
    r := r + "}";
  }

  /** The label values in force for `names`: missing ones are empty, surplus ones are dropped. */
  function Padded(names: seq<string>, values: seq<string>): (r: seq<string>)
    ensures |r| == |names|
  {
    seq(|names|, i requires 0 <= i < |names| => if i < |values| then values[i] else "")
  }

  function LabelsOf(names: seq<string>, values: seq<string>): (r: seq<Label>)
    ensures |r| == |names|
  {
    seq(|names|, i requires 0 <= i < |names| => Label(names[i], Padded(names, values)[i]))
  }

  method MakeLabels(names: seq<string>, values: seq<string>) returns (labels: seq<Label>)
    ensures labels == LabelsOf(names, values)
  {
    labels := [];
    for i := 0 to |names|
      invariant |labels| == i
      invariant forall j :: 0 <= j < i ==> labels[j] == LabelsOf(names, values)[j]
    {
      var val := "";
      if i < |values| { val := values[i]; }
      assert val == Padded(names, values)[i];
      labels := labels + [Label(names[i], val)];
    }
  }

  /** Under which string the series for `values` is kept. */
  function Key(names: seq<string>, values: seq<string>): string
  {
    Format(LabelsOf(names, values))
  }

  // ---- Unique decodability ----

  lemma EscapeFirst(x: string, r: string)
    requires x != ""
    ensures Escape(x) + "\"" + r == EscapeChar(x[0]) + (Escape(x[1..]) + "\"" + r)
  {
    assert Escape(x) == EscapeChar(x[0]) + Escape(x[1..]);
    hide EscapeChar, Escape;
  }

  /** The code of a character is known from its first two positions. */
  lemma FirstCharDecodable(a: char, x: string, b: char, y: string)
    requires x != "" && y != "" && EscapeChar(a) + x == EscapeChar(b) + y
    ensures a == b && x == y
  {
    var left, right := EscapeChar(a) + x, EscapeChar(b) + y;
    assert left[0] == right[0] && left[1] == right[1];
    assert a == b;
    assert left[|EscapeChar(a)|..] == x && right[|EscapeChar(b)|..] == y;
  }

  /** An escaped value ends at the first quote, whatever follows. */
  lemma {:induction false} EscapePrefixFree(x: string, y: string, r: string, t: string)
    requires Escape(x) + "\"" + r == Escape(y) + "\"" + t
    ensures x == y && r == t
  {
    var left, right := Escape(x) + "\"" + r, Escape(y) + "\"" + t;
    if x == "" || y == "" {
      assert left[0] == right[0];
      assert r == left[1..] && t == right[1..];
    } else {
      EscapeFirst(x, r);
      EscapeFirst(y, t);
      FirstCharDecodable(x[0], Escape(x[1..]) + "\"" + r, y[0], Escape(y[1..]) + "\"" + t);
      EscapePrefixFree(x[1..], y[1..], r, t);
      assert x == [x[0]] + x[1..] && y == [y[0]] + y[1..];
    }
  }

  lemma FirstItem(labels: seq<Label>, comma: bool)
    requires labels != []
    ensures Items(labels, comma)
            == (if comma then "," else "") + labels[0].name + "=\"" + (Escape(labels[0].value) + "\"" + Items(labels[1..], true))
  {
    var separator, l, rest := if comma then "," else "", labels[0], Items(labels[1..], true);
    assert Items(labels, comma) == separator + Item(l) + rest;
    assert Item(l) == l.name + "=\"" + Escape(l.value) + "\"";
    hide Items, Item, Escape;
    Regrouped(separator, l.name, "=\"", Escape(l.value), "\"", rest);
  }

  lemma Regrouped(a: string, b: string, c: string, d: string, e: string, f: string)
    ensures a + (b + c + d + e) + f == a + b + c + (d + e + f)
  {
  }

  lemma {:induction false} ItemsDecodable(a: seq<Label>, b: seq<Label>, comma: bool)
    requires |a| == |b| && forall i :: 0 <= i < |a| ==> a[i].name == b[i].name
    requires Items(a, comma) == Items(b, comma)
    ensures a == b
  {
    hide Items, Escape;
    if a != [] {
      var ra, rb := Items(a[1..], true), Items(b[1..], true);
      assert a[0].name == b[0].name;
      FirstItem(a, comma);
      FirstItem(b, comma);
      var head := (if comma then "," else "") + a[0].name + "=\"";
      var va, vb := Escape(a[0].value) + "\"" + ra, Escape(b[0].value) + "\"" + rb;
      assert (head + va)[|head|..] == va && (head + vb)[|head|..] == vb;
      EscapePrefixFree(a[0].value, b[0].value, ra, rb);
      ItemsDecodable(a[1..], b[1..], true);
      assert a == [a[0]] + a[1..] && b == [b[0]] + b[1..];
    }
  }

  function Names(labels: seq<Label>): (r: seq<string>)
    ensures |r| == |labels| && forall i :: 0 <= i < |labels| ==> r[i] == labels[i].name
  {
    seq(|labels|, i requires 0 <= i < |labels| => labels[i].name)
  }

  lemma {:induction false} InsertNames(l: Label, s: seq<Label>)
    ensures Names(Insert(NameLe, l, s)) == Insert(StringLe, l.name, Names(s))
  {
    if s != [] && !NameLe(l, s[0]) {
      InsertNames(l, s[1..]);
      assert Names(s)[1..] == Names(s[1..]);
    }
  }

  /** The order of the labels depends on their names only. */
  lemma {:induction false} SortNames(labels: seq<Label>)
    ensures Names(Sort(NameLe, labels)) == Sort(StringLe, Names(labels))
  {
    if labels != [] {
      SortNames(labels[1..]);
      InsertNames(labels[0], Sort(NameLe, labels[1..]));
      assert Names(labels)[1..] == Names(labels[1..]);
    }
  }

  lemma NameFixesPlace(a: seq<Label>, i: nat)
    requires Distinct(Names(a)) && i < |a| && a[i].name == a[0].name
    ensures i == 0
  {
    var names := Names(a);
    assert names[i] == names[0];
  }

  lemma SameFirst(a: seq<Label>, b: seq<Label>)
    requires SortedBy(NameLe, a) && SortedBy(NameLe, b) && multiset(a) == multiset(b) && Distinct(Names(a))
    requires a != [] && b != []
    ensures a[0] == b[0]
  {
    assert a[0] in multiset(b) && b[0] in multiset(a);
    var i :| 0 <= i < |a| && a[i] == b[0];
    var j :| 0 <= j < |b| && b[j] == a[0];
    StringLeTotal(a[0].name, a[0].name);
    if j > 0 {
      assert NameLe(a[0], a[i]) && NameLe(b[0], b[j]);
      hide StringLe;
      StringLeAntisymmetric(a[0].name, b[0].name);
      NameFixesPlace(a, i);
    }
  }

  lemma TailInOrder(a: seq<Label>)
    requires a != [] && SortedBy(NameLe, a) && Distinct(Names(a))
    ensures SortedBy(NameLe, a[1..]) && Distinct(Names(a[1..]))
  {
    hide NameLe;
    assert Names(a[1..]) == Names(a)[1..];
  }

  /** With distinct names there is one order by name, so which sort produces it does not matter. */
  lemma {:induction false} OrderByNameUnique(a: seq<Label>, b: seq<Label>)
    requires SortedBy(NameLe, a) && SortedBy(NameLe, b) && multiset(a) == multiset(b) && Distinct(Names(a))
    ensures a == b
  {
    assert |multiset(a)| == |multiset(b)|;
    if a != [] {
      SameFirst(a, b);
      SameTails(a, b);
      TailInOrder(a);
      assert SortedBy(NameLe, b[1..]) by { hide NameLe; }
      OrderByNameUnique(a[1..], b[1..]);
      assert a == [a[0]] + a[1..] && b == [b[0]] + b[1..];
    }
  }

  /** Series keys are uniquely decodable: two calls meet in one series exactly when their
      padded label values are the same. */
  lemma KeyIdentifiesValues(names: seq<string>, v: seq<string>, w: seq<string>)
    requires Distinct(names)
    ensures Key(names, v) == Key(names, w) <==> Padded(names, v) == Padded(names, w)
  {
    var a, b := LabelsOf(names, v), LabelsOf(names, w);
    if Padded(names, v) == Padded(names, w) {
      assert a == b;
    } else if Key(names, v) == Key(names, w) {
      assert Names(a) == names == Names(b);
      FormatDecodable(a, b);
      hide Format;
      forall i | 0 <= i < |names| ensures Padded(names, v)[i] == Padded(names, w)[i] {
        assert a[i] in multiset(b);
        var j :| 0 <= j < |b| && b[j] == a[i];
        assert names[i] == names[j];
      }
    }
  }

  /** Two lists over the same names with the same format have the same labels. */
  lemma FormatDecodable(a: seq<Label>, b: seq<Label>)
    requires Names(a) == Names(b) && Format(a) == Format(b)
    ensures multiset(a) == multiset(b)
  {
    assert |a| == |Names(a)| && |b| == |Names(b)|;
    if a != [] {
      var sa, sb := Sort(NameLe, a), Sort(NameLe, b);
      SortNames(a);
      SortNames(b);
      forall i | 0 <= i < |sa| ensures sa[i].name == sb[i].name {
        assert Names(sa)[i] == Names(sb)[i];
      }
      assert Items(sa, false) == Format(a)[1..|Format(a)| - 1];
      assert Items(sb, false) == Format(b)[1..|Format(b)| - 1];
      hide Items, Sort, Format;
      ItemsDecodable(sa, sb, false);
      SortMultiset(NameLe, a);
      SortMultiset(NameLe, b);
    }
  }

  // ---- The reader of the text format ----

  /** What a reader of the exposition format makes of an escaped value: the value up to its closing quote,
      and the text behind that quote. */
  function ReadValue(text: string): (r: Option<(string, string)>)
    ensures r.Some? ==> |r.value.1| < |text|
  {
    if text == "" then None
    else if text[0] == '"' then Some(("", text[1..]))
    else if text[0] != '\\' then Read(text[0], ReadValue(text[1..]))
    else if |text| == 1 then None
    else
      match text[1]
      case '\\' => Read('\\', ReadValue(text[2..]))
      case '"' => Read('"', ReadValue(text[2..]))
      case 'n' => Read('\n', ReadValue(text[2..]))
      case _ => None
  }

  function Read(c: char, rest: Option<(string, string)>): Option<(string, string)>
  {
    if rest.Some? then Some(([c] + rest.value.0, rest.value.1)) else None
  }

  /** The label name up to its equals sign, and the text behind the opening quote. */
  function ReadName(text: string): (r: Option<(string, string)>)
    ensures r.Some? ==> |r.value.1| < |text|
  {
    if |text| < 2 then None
    else if text[0] != '=' then Read(text[0], ReadName(text[1..]))
    else if text[1] == '"' then Some(("", text[2..]))
    else None
  }

  /** The labels written in `text`; a comma stands before each except possibly the first. */
  function ReadItems(text: string, comma: bool): Option<seq<Label>>
    decreases |text|
  {
    if text == "" then Some([])
    else if comma && text[0] != ',' then None
    else
      var name := ReadName(if comma then text[1..] else text);
      if name.None? then None
      else
        var val := ReadValue(name.value.1);
        if val.None? then None
        else
          var rest := ReadItems(val.value.1, true);
          if rest.Some? then Some([Label(name.value.0, val.value.0)] + rest.value) else None
  }

  function ReadLabels(text: string): Option<seq<Label>>
  {
    if text == "" then Some([])
    else if |text| < 2 || text[0] != '{' || text[|text| - 1] != '}' then None
    else ReadItems(text[1..|text| - 1], false)
  }

  lemma {:induction false} ValueReadsBack(x: string, r: string)
    ensures ReadValue(Escape(x) + "\"" + r) == Some((x, r))
  {
    var text := Escape(x) + "\"" + r;
    if x == "" {
      assert text[1..] == r;
    } else {
      var rest := Escape(x[1..]) + "\"" + r;
      EscapeFirst(x, r);
      ValueReadsBack(x[1..], r);
      assert text[|EscapeChar(x[0])|..] == rest;
      assert [x[0]] + x[1..] == x;
      hide Escape;
    }
  }

  lemma {:induction false} NameReadsBack(name: string, r: string)
    requires '=' !in name
    ensures ReadName(name + "=\"" + r) == Some((name, r))
  {
    var text := name + "=\"" + r;
    if name == "" {
      assert text[2..] == r;
    } else {
      NameReadsBack(name[1..], r);
      assert text[1..] == name[1..] + "=\"" + r;
      assert [name[0]] + name[1..] == name;
    }
  }

  lemma ReadStep(text: string, comma: bool, l: Label, behind: string, rest: string, labels: seq<Label>)
    requires text != "" && (comma ==> text[0] == ',')
    requires ReadName(if comma then text[1..] else text) == Some((l.name, behind))
    requires ReadValue(behind) == Some((l.value, rest)) && ReadItems(rest, true) == Some(labels)
    ensures ReadItems(text, comma) == Some([l] + labels)
  {
    hide ReadName, ReadValue;
  }

  lemma AfterComma(separator: string, a: string, b: string, c: string)
    ensures (separator + a + b + c)[|separator|..] == a + b + c
  {
  }

  lemma ItemsBehindComma(labels: seq<Label>, comma: bool)
    requires labels != []
    ensures var text, l := Items(labels, comma), labels[0];
      && text != "" && (comma ==> text[0] == ',')
      && (if comma then text[1..] else text) == l.name + "=\"" + (Escape(l.value) + "\"" + Items(labels[1..], true))
  {
    var behind := Escape(labels[0].value) + "\"" + Items(labels[1..], true);
    FirstItem(labels, comma);
    hide Items, Escape;
    AfterComma(if comma then "," else "", labels[0].name, "=\"", behind);
  }

  lemma {:induction false} ItemsReadBack(labels: seq<Label>, comma: bool)
    requires forall l :: l in labels ==> '=' !in l.name
    ensures ReadItems(Items(labels, comma), comma) == Some(labels)
  {
    if labels != [] {
      var l, rest := labels[0], Items(labels[1..], true);
      var behind := Escape(l.value) + "\"" + rest;
      hide Items, Escape, ReadName, ReadValue, ReadItems;
      ItemsBehindComma(labels, comma);
      ItemsReadBack(labels[1..], true);
      NameReadsBack(l.name, behind);
      ValueReadsBack(l.value, rest);
      ReadStep(Items(labels, comma), comma, l, behind, rest, labels[1..]);
      assert [l] + labels[1..] == labels;
    }
  }

  /** What a reader of the exposition format finds in the label text: the same labels with the same
      values, in the order of their names. */
  lemma FormatReadsBack(labels: seq<Label>)
    requires forall l :: l in labels ==> '=' !in l.name
    ensures var read := ReadLabels(Format(labels));
      read.Some? && SortedBy(NameLe, read.value) && multiset(read.value) == multiset(labels)
  {
    var sorted := Sort(NameLe, labels);
    StringOrder();
    SortMultiset(NameLe, labels);
    SortSorted(NameLe, labels);
    if labels != [] {
      var items := Items(sorted, false);
      assert Format(labels)[1..|Format(labels)| - 1] == items;
      hide Items, Sort, ReadItems, SortedBy;
      forall l | l in sorted ensures '=' !in l.name { assert l in multiset(labels); }
      ItemsReadBack(sorted, false);
    }
  }

  // ---- Histograms ----

  const DEFAULT_BUCKETS := [0.001, 0.005, 0.01, 0.025, 0.05, 0.1, 0.25, 0.5, 1.0, 2.5]

  predicate RealLe(a: real, b: real) { a <= b }

  datatype HistogramSeries = HistogramSeries(labels: seq<Label>, counts: seq<nat>, count: nat, sum: real)

  /** Adds one observation to every bucket that covers it. */
  function Bumped(counts: seq<nat>, buckets: seq<real>, seconds: real): (r: seq<nat>)
    requires |counts| == |buckets|
    ensures |r| == |buckets|
  {
    seq(|buckets|, i requires 0 <= i < |buckets| => counts[i] + if seconds <= buckets[i] then 1 else 0)
  }

  function Fresh(names: seq<string>, buckets: seq<real>, values: seq<string>): HistogramSeries
  {
    HistogramSeries(LabelsOf(names, values), seq(|buckets|, i => 0), 0, 0.0)
  }

  ghost predicate WellSized(buckets: seq<real>, series: map<string, HistogramSeries>) {
    forall k :: k in series ==> |series[k].counts| == |buckets|
  }

  /** The series after one observation. */
  function Observed(names: seq<string>, buckets: seq<real>, series: map<string, HistogramSeries>,
                    seconds: real, values: seq<string>): (r: map<string, HistogramSeries>)
    requires WellSized(buckets, series)
    ensures WellSized(buckets, r)
  {
    var key := Key(names, values);
    var s := if key in series then series[key] else Fresh(names, buckets, values);
    series[key := HistogramSeries(s.labels, Bumped(s.counts, buckets, seconds), s.count + 1, s.sum + seconds)]
  }

  class HistogramVec {
    const labelNames: seq<string>
    const buckets: seq<real>
    var series: map<string, HistogramSeries>

    ghost predicate Valid() reads this { WellSized(buckets, series) }

    constructor (labelNames: seq<string>, buckets: seq<real>)
      ensures Valid() && this.labelNames == labelNames && series == map[]
      ensures var given := if buckets == [] then DEFAULT_BUCKETS else buckets;
        SortedBy(RealLe, this.buckets) && multiset(this.buckets) == multiset(given)
    {
      var given := if |buckets| == 0 then DEFAULT_BUCKETS else buckets;
      SortSorted(RealLe, given);
      SortMultiset(RealLe, given);
      this.labelNames, this.buckets, series := labelNames, Sort(RealLe, given), map[];
    }

    /** Makes sure the series for `values` exists and returns its key. */
    method GetSeries(values: seq<string>) returns (key: string)
      requires Valid()
      modifies this
      ensures Valid() && key == Key(labelNames, values)
      ensures series == if key in old(series) then old(series)
                        else old(series)[key := Fresh(labelNames, buckets, values)]
    {
      var labels := MakeLabels(labelNames, values);
      key := FormatLabels(labels);
      if key !in series {
        series := series[key := HistogramSeries(labels, seq(|buckets|, i => 0), 0, 0.0)];
      }
    }

    method Observe(seconds: real, values: seq<string>)
      requires Valid()
      modifies this
      ensures Valid() && series == Observed(labelNames, buckets, old(series), seconds, values)
    {
      var key := GetSeries(values);
      var s := series[key];
      s := s.(count := s.count + 1);
      s := s.(sum := s.sum + seconds);
      ghost var before := s.counts;
      for i := 0 to |buckets|
        invariant |s.counts| == |buckets| && s == series[key].(count := s.count, sum := s.sum, counts := s.counts)
        invariant s.count == series[key].count + 1 && s.sum == series[key].sum + seconds
        invariant forall j :: 0 <= j < |buckets| ==>
          s.counts[j] == before[j] + if j < i && seconds <= buckets[j] then 1 else 0
      {
        if seconds <= buckets[i] {
          s := s.(counts := s.counts[i := s.counts[i] + 1]);
        }
      }
      assert s.counts == Bumped(before, buckets, seconds);
      series := series[key := s];
    }
  }

  // ---- Runs ----

  datatype Observation = Observation(seconds: real, values: seq<string>)

  /** The series of a fresh histogram after `obs`. */
  function AfterObservations(names: seq<string>, buckets: seq<real>, obs: seq<Observation>): (r: map<string, HistogramSeries>)
    ensures WellSized(buckets, r)
  {
    if obs == [] then map[]
    else
      var o := obs[|obs| - 1];
      Observed(names, buckets, AfterObservations(names, buckets, obs[..|obs| - 1]), o.seconds, o.values)
  }

  /** The observations of exactly the padded tuple `tuple`, as their values in seconds. */
  function OfTuple(names: seq<string>, obs: seq<Observation>, tuple: seq<string>): seq<real>
  {
    if obs == [] then []
    else
      var o := obs[|obs| - 1];
      OfTuple(names, obs[..|obs| - 1], tuple) + if Padded(names, o.values) == tuple then [o.seconds] else []
  }

  function AtMost(xs: seq<real>, bound: real): (n: nat)
    ensures n <= |xs|
  {
    if xs == [] then 0 else AtMost(xs[..|xs| - 1], bound) + if xs[|xs| - 1] <= bound then 1 else 0
  }

  function Sum(xs: seq<real>): real
  {
    if xs == [] then 0.0 else Sum(xs[..|xs| - 1]) + xs[|xs| - 1]
  }

  /** What a series should hold given the observations `xs` of its own tuple. */
  ghost predicate Summarises(s: HistogramSeries, labels: seq<Label>, buckets: seq<real>, xs: seq<real>) {
    && s.labels == labels && s.count == |xs| && s.sum == Sum(xs) && |s.counts| == |buckets|
    && forall i :: 0 <= i < |buckets| ==> s.counts[i] == AtMost(xs, buckets[i])
  }

  lemma SummaryStep(s: HistogramSeries, labels: seq<Label>, buckets: seq<real>, xs: seq<real>, x: real)
    requires Summarises(s, labels, buckets, xs)
    ensures Summarises(HistogramSeries(s.labels, Bumped(s.counts, buckets, x), s.count + 1, s.sum + x),
                       labels, buckets, xs + [x])
  {
    assert (xs + [x])[..|xs + [x]| - 1] == xs;
  }

  /** After any run, the series found under a tuple's key is exactly the summary of the
      observations made with that tuple, and there is one iff there was such an observation. */
  lemma {:induction false} SeriesSummariseTheirTuple(names: seq<string>, buckets: seq<real>, obs: seq<Observation>, values: seq<string>)
    requires Distinct(names)
    ensures var series := AfterObservations(names, buckets, obs);
      var xs := OfTuple(names, obs, Padded(names, values));
      if xs == [] then Key(names, values) !in series
      else Key(names, values) in series
           && Summarises(series[Key(names, values)], LabelsOf(names, values), buckets, xs)
  {
    if obs != [] {
      var before, o := obs[..|obs| - 1], obs[|obs| - 1];
      var tuple, key := Padded(names, values), Key(names, values);
      SeriesSummariseTheirTuple(names, buckets, before, values);
      KeyIdentifiesValues(names, values, o.values);
      var xs := OfTuple(names, before, tuple);
      var series := AfterObservations(names, buckets, before);
      if Padded(names, o.values) == tuple {
        assert LabelsOf(names, o.values) == LabelsOf(names, values);
        var s := if key in series then series[key] else Fresh(names, buckets, o.values);
        SummaryStep(s, LabelsOf(names, values), buckets, xs, o.seconds);
      } else {
        assert OfTuple(names, obs, tuple) == xs;
      }
    }
  }

  lemma {:induction false} AtMostMonotone(xs: seq<real>, a: real, b: real)
    requires a <= b
    ensures AtMost(xs, a) <= AtMost(xs, b)
  {
    if xs != [] { AtMostMonotone(xs[..|xs| - 1], a, b); }
  }

  /** Bucket counts are cumulative: nondecreasing along the sorted buckets and bounded by the count. */
  lemma CountsAreCumulative(names: seq<string>, buckets: seq<real>, obs: seq<Observation>, values: seq<string>, i: nat, j: nat)
    requires Distinct(names) && SortedBy(RealLe, buckets) && i < j < |buckets|
    requires Key(names, values) in AfterObservations(names, buckets, obs)
    ensures var s := AfterObservations(names, buckets, obs)[Key(names, values)];
      s.counts[i] <= s.counts[j] <= s.count
  {
    SeriesSummariseTheirTuple(names, buckets, obs, values);
    assert RealLe(buckets[i], buckets[j]);
    AtMostMonotone(OfTuple(names, obs, Padded(names, values)), buckets[i], buckets[j]);
  }

  // ---- Counters ----

  datatype CounterSeries = CounterSeries(labels: seq<Label>, val: real)

  /** The counter series after adding `delta`; a negative amount is ignored. */
  function Added(names: seq<string>, series: map<string, CounterSeries>, delta: real, values: seq<string>): map<string, CounterSeries>
  {
    if delta < 0.0 then series
    else
      var key := Key(names, values);
      var s := if key in series then series[key] else CounterSeries(LabelsOf(names, values), 0.0);
      series[key := s.(val := s.val + delta)]
  }

  class CounterVec {
    const labelNames: seq<string>
    var series: map<string, CounterSeries>

    constructor (labelNames: seq<string>)
      ensures this.labelNames == labelNames && series == map[]
    {
      this.labelNames, series := labelNames, map[];
    }

    method GetSeries(values: seq<string>) returns (key: string)
      modifies this
      ensures key == Key(labelNames, values)
      ensures series == if key in old(series) then old(series)
                        else old(series)[key := CounterSeries(LabelsOf(labelNames, values), 0.0)]
    {
      var labels := MakeLabels(labelNames, values);
      key := FormatLabels(labels);
      if key !in series {
        series := series[key := CounterSeries(labels, 0.0)];
      }
    }

    method Add(delta: real, values: seq<string>)
      modifies this
      ensures series == Added(labelNames, old(series), delta, values)
    {
      if delta < 0.0 { return; }
      var key := GetSeries(values);
      var s := series[key];
      series := series[key := s.(val := s.val + delta)];
    }
  }

  function AfterAdds(names: seq<string>, adds: seq<Observation>): map<string, CounterSeries>
  {
    if adds == [] then map[]
    else
      var a := adds[|adds| - 1];
      Added(names, AfterAdds(names, adds[..|adds| - 1]), a.seconds, a.values)
  }

  /** The amounts that count for the padded tuple `tuple`. */
  function AmountsOfTuple(names: seq<string>, adds: seq<Observation>, tuple: seq<string>): seq<real>
  {
    if adds == [] then []
    else
      var a := adds[|adds| - 1];
      AmountsOfTuple(names, adds[..|adds| - 1], tuple)
      + if Padded(names, a.values) == tuple && a.seconds >= 0.0 then [a.seconds] else []
  }

  /** After any run, a counter series is the sum of the nonnegative amounts added with exactly its tuple. */
  lemma {:induction false} CountersSumTheirTuple(names: seq<string>, adds: seq<Observation>, values: seq<string>)
    requires Distinct(names)
    ensures var series := AfterAdds(names, adds);
      var xs := AmountsOfTuple(names, adds, Padded(names, values));
      if xs == [] then Key(names, values) !in series
      else Key(names, values) in series
           && series[Key(names, values)] == CounterSeries(LabelsOf(names, values), Sum(xs))
  {
    if adds != [] {
      var before, a := adds[..|adds| - 1], adds[|adds| - 1];
      var tuple := Padded(names, values);
      CountersSumTheirTuple(names, before, values);
      KeyIdentifiesValues(names, values, a.values);
      var xs := AmountsOfTuple(names, before, tuple);
      if Padded(names, a.values) == tuple && a.seconds >= 0.0 {
        assert LabelsOf(names, a.values) == LabelsOf(names, values);
        assert (xs + [a.seconds])[..|xs + [a.seconds]| - 1] == xs;
        assert Sum(xs + [a.seconds]) == Sum(xs) + a.seconds;
      } else {
        assert AmountsOfTuple(names, adds, tuple) == xs;
      }
    }
  }
}
