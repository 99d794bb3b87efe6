/** The label and tag services.

    Tags live in the `tag_by_label` table, partitioned by the first
    `LABEL_PREFIX_LENGTH` characters of the normalised label.  Label
    normalisation (`alphanumeric_lower`) is a parameter `norm` of the
    functions here: gsrest/util/string_edit.py is not part of this model. */
module Tags {
  import opened Wrappers
  import opened Text
  import Checks

  /** A row of `tag_by_label`. */
  datatype TagRow = TagRow(
    address: string, labelText: string, labelNorm: string, labelNormPrefix: string,
    currency: string, source: string, tagpackUri: string, lastmod: int)

  /** The aggregate `get_label` reads: one label with its address count. */
  datatype Label = Label(labelNorm: string, labelText: string, addressCount: nat)

  /** `Tag.from_address_row(row, currency)`; the Tag model is not part of
      this model, so the tag keeps the row it was built from. */
  datatype Tag = Tag(row: TagRow, currency: string)

  /** A row of the grouped label query of `list_labels`. */
  datatype LabelRow = LabelRow(labelText: string, labelNorm: string, currency: string)

  /** `label_norm[:LABEL_PREFIX_LENGTH]`, the partition key. */
  function NormPrefix(labelNorm: string): (p: string)
    ensures |p| <= Checks.LABEL_PREFIX_LENGTH
    ensures StartsWith(labelNorm, p)
    ensures |labelNorm| >= Checks.LABEL_PREFIX_LENGTH ==> |p| == Checks.LABEL_PREFIX_LENGTH
    ensures |labelNorm| < Checks.LABEL_PREFIX_LENGTH ==> p == labelNorm
  {
    Take(labelNorm, Checks.LABEL_PREFIX_LENGTH)
  }

  /** Every row is stored in the partition of its own normalised label. */
  predicate Partitioned(table: seq<TagRow>) {
    forall i :: 0 <= i < |table| ==> table[i].labelNormPrefix == NormPrefix(table[i].labelNorm)
  }

  /** `WHERE label_norm_prefix = prefix and label_norm = labelNorm`, in table order. */
  function SelectByLabel(table: seq<TagRow>, prefix: string, labelNorm: string): (r: seq<TagRow>)
    ensures |r| <= |table|
    ensures forall x :: x in r <==> x in table && x.labelNormPrefix == prefix && x.labelNorm == labelNorm
  {
    if table == [] then []
    else
      var rest := SelectByLabel(table[1..], prefix, labelNorm);
      assert forall x :: x in table <==> x == table[0] || x in table[1..];
      if table[0].labelNormPrefix == prefix && table[0].labelNorm == labelNorm then [table[0]] + rest
      else rest
  }

  /** The query keeps table order, and answers each matching row once: the
      rows of two runs of the table are those of the first run followed by
      those of the second. */
  lemma {:induction false} SelectByLabelAppend(a: seq<TagRow>, b: seq<TagRow>, prefix: string, labelNorm: string)
    ensures SelectByLabel(a + b, prefix, labelNorm) == SelectByLabel(a, prefix, labelNorm) + SelectByLabel(b, prefix, labelNorm)
  {
    if a == [] {
      assert a + b == b;
    } else {
      assert (a + b)[1..] == a[1..] + b;
      SelectByLabelAppend(a[1..], b, prefix, labelNorm);
    }
  }

  /** The rows a label query reads: the partition key is derived from the
      same normalised label, so in a partitioned table it loses no row. */
  lemma LabelQueryComplete(table: seq<TagRow>, name: string, norm: string -> string)
    requires Partitioned(table)
    ensures forall x :: x in SelectByLabel(table, NormPrefix(norm(name)), norm(name)) <==>
                          x in table && x.labelNorm == norm(name)
  {
  }

  /** `get_label(label, currency)`: None when no row matches; otherwise the
      label of the first matching row with the number of matching rows. */
  function GetLabel(name: string, norm: string -> string, table: seq<TagRow>): (r: Option<Label>)
    ensures var rows := SelectByLabel(table, NormPrefix(norm(name)), norm(name));
            && (r.None? <==> rows == [])
            && (r.Some? ==> r.value == Label(norm(name), rows[0].labelText, |rows|))
  {
    var labelNorm := norm(name);
    var rows := SelectByLabel(table, NormPrefix(labelNorm), labelNorm);
    if rows != [] then Some(Label(labelNorm, rows[0].labelText, |rows|)) else None
  }

  function TagsOf(rows: seq<TagRow>): (r: seq<Tag>)
    ensures |r| == |rows|
    ensures forall i :: 0 <= i < |rows| ==> r[i] == Tag(rows[i], rows[i].currency)
  {
    if rows == [] then [] else [Tag(rows[0], rows[0].currency)] + TagsOf(rows[1..])
  }

  /** `list_tags(label)`: None when no row matches; otherwise one tag per
      matching row, in row order. */
  function ListTags(name: string, norm: string -> string, table: seq<TagRow>): (r: Option<seq<Tag>>)
    ensures var rows := SelectByLabel(table, NormPrefix(norm(name)), norm(name));
            && (r.None? <==> rows == [])
            && (r.Some? ==> (|r.value| == |rows| &&
                 forall i :: 0 <= i < |rows| ==> r.value[i] == Tag(rows[i], rows[i].currency)))
  {
    var labelNorm := norm(name);
    var rows := SelectByLabel(table, NormPrefix(labelNorm), labelNorm);
    if rows != [] then Some(TagsOf(rows)) else None
  }

  // ---------------------------------------------------------------------
  // list_labels

  /** The filter of `list_labels`; an empty currency applies none, and the
      currency argument itself is compared as given. */
  predicate Selected(row: LabelRow, expressionNorm: string, currency: string) {
    StartsWith(row.labelNorm, expressionNorm) && (currency != "" ==> Lower(row.currency) == currency)
  }

  /** The list comprehension: the labels of the selected rows, in row order. */
  function SelectedLabels(rows: seq<LabelRow>, expressionNorm: string, currency: string): (r: seq<string>)
    ensures |r| <= |rows|
    ensures forall x :: x in r <==> exists i :: 0 <= i < |rows| && rows[i].labelText == x && Selected(rows[i], expressionNorm, currency)
  {
    if rows == [] then []
    else
      var rest := SelectedLabels(rows[1..], expressionNorm, currency);
      assert forall i :: 1 <= i < |rows| ==> rows[i] == rows[1..][i - 1];
      if Selected(rows[0], expressionNorm, currency) then [rows[0].labelText] + rest else rest
  }

  /** The comprehension keeps row order: the labels of two runs of rows are
      those of the first run followed by those of the second. */
  lemma {:induction false} SelectedLabelsAppend(a: seq<LabelRow>, b: seq<LabelRow>, expressionNorm: string, currency: string)
    ensures SelectedLabels(a + b, expressionNorm, currency) ==
              SelectedLabels(a, expressionNorm, currency) + SelectedLabels(b, expressionNorm, currency)
  {
    if a == [] {
      assert a + b == b;
    } else {
      assert (a + b)[1..] == a[1..] + b;
      SelectedLabelsAppend(a[1..], b, expressionNorm, currency);
    }
  }

  predicate NoDuplicates<T(==)>(s: seq<T>) {
    forall i, j :: 0 <= i < j < |s| ==> s[i] != s[j]
  }

  /** Index of the first occurrence of `x`. */
  function FirstIndex<T(==)>(s: seq<T>, x: T): (k: nat)
    requires x in s
    ensures k < |s| && s[k] == x
    ensures forall j :: 0 <= j < k ==> s[j] != x
  {
    if s[0] == x then 0 else 1 + FirstIndex(s[1..], x)
  }

  /** `list(dict.fromkeys(s))`: each element once, where it first occurs. */
  function Dedup(s: seq<string>): (r: seq<string>)
    ensures forall x :: x in r <==> x in s
    ensures NoDuplicates(r)
    ensures |r| <= |s|
  {
    if s == [] then []
    else
      var init := s[..|s| - 1];
      var last := s[|s| - 1];
      assert s == init + [last];
      var d := Dedup(init);
      if last in d then d else d + [last]
  }

  lemma {:induction false} FirstIndexInPrefix<T>(init: seq<T>, y: T, x: T)
    requires x in init
    ensures FirstIndex(init + [y], x) == FirstIndex(init, x)
  {
    if init[0] != x {
      assert (init + [y])[1..] == init[1..] + [y];
      FirstIndexInPrefix(init[1..], y, x);
    }
  }

  /** The elements of `Dedup(s)` are ordered by their first occurrence in `s`. */
  lemma {:induction false} DedupKeepsFirstOrder(s: seq<string>)
    ensures forall i, j :: 0 <= i < j < |Dedup(s)| ==> FirstIndex(s, Dedup(s)[i]) < FirstIndex(s, Dedup(s)[j])
  {
    if s != [] {
      var init := s[..|s| - 1];
      var last := s[|s| - 1];
      assert s == init + [last];
      DedupKeepsFirstOrder(init);
      var d := Dedup(init);
      forall x | x in d ensures FirstIndex(s, x) == FirstIndex(init, x) {
        FirstIndexInPrefix(init, last, x);
      }
      if last !in d {
        assert FirstIndex(s, last) == |s| - 1;
      }
    }
  }

  /** The prefix `list_labels` queries with. */
  function LabelSearchPrefix(expression: string, norm: string -> string): string
  {
    NormPrefix(norm(expression))
  }

  /** `list_labels(currency, expression)` over the rows of the prefix query. */
  function ListLabels(currency: string, expression: string, norm: string -> string, rows: seq<LabelRow>): (r: seq<string>)
    ensures forall x :: x in r ==> exists i :: 0 <= i < |rows| && rows[i].labelText == x && Selected(rows[i], norm(expression), currency)
    ensures forall i :: 0 <= i < |rows| && Selected(rows[i], norm(expression), currency) ==> rows[i].labelText in r
    ensures NoDuplicates(r)
    ensures |r| <= |rows|
  {
    Dedup(SelectedLabels(rows, norm(expression), currency))
  }

  /** The output of `list_labels` keeps the order in which its labels first
      appear among the selected rows. */
  lemma ListLabelsOrder(currency: string, expression: string, norm: string -> string, rows: seq<LabelRow>)
    ensures var s := SelectedLabels(rows, norm(expression), currency);
            var r := ListLabels(currency, expression, norm, rows);
            forall i, j :: 0 <= i < j < |r| ==> FirstIndex(s, r[i]) < FirstIndex(s, r[j])
  {
    DedupKeepsFirstOrder(SelectedLabels(rows, norm(expression), currency));
  }

  /** A row whose normalised label extends an expression of at least
      `LABEL_PREFIX_LENGTH` normalised characters lies in the partition
      `list_labels` reads. */
  lemma SearchPartitionComplete(labelNorm: string, expression: string, norm: string -> string)
    requires StartsWith(labelNorm, norm(expression))
    requires |norm(expression)| >= Checks.LABEL_PREFIX_LENGTH
    ensures NormPrefix(labelNorm) == LabelSearchPrefix(expression, norm)
  {
  }

  /** The converse: a normalised expression shorter than
      `LABEL_PREFIX_LENGTH` reads a partition that holds no label of
      `LABEL_PREFIX_LENGTH` or more characters, so `list_labels` never
      returns such a label for it, not even one that extends it. */
  lemma ShortSearchMissesPartition(labelNorm: string, expression: string, norm: string -> string)
    requires |norm(expression)| < Checks.LABEL_PREFIX_LENGTH <= |labelNorm|
    ensures NormPrefix(labelNorm) != LabelSearchPrefix(expression, norm)
  {
  }
}
