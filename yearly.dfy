/**
 * The yearly component in `app.jsx`: grouping by "<word> <year>", integer
 * year labels from the start to the end year, and one line per word with a
 * fixed colour rule.
 */
module Yearly {
  import opened Text
  import opened Grouping
  import opened Datasets

  /**
   * `Array.from({ length: endDate - startDate + 1 }, (_, i) => (parseInt(startDate) + i).toString())`;
   * a negative length gives no labels.
   */
  function YearLabels(startYear: int, endYear: int): (labels: seq<string>)
    ensures |labels| == if endYear < startYear then 0 else endYear - startYear + 1
  {
    var n := if endYear < startYear then 0 else endYear - startYear + 1;
    seq(n, i requires 0 <= i < n => IntToString(startYear + i))
  }

  /** Label i reads back as the year `startYear + i`: consecutive years, each once. */
  lemma YearLabelsSpec(startYear: int, endYear: int)
    ensures var labels := YearLabels(startYear, endYear);
      && (labels == [] <==> endYear < startYear)
      && (forall i :: 0 <= i < |labels| ==> ParseInt(labels[i]) == Some(startYear + i))
      && (forall i, j :: 0 <= i < j < |labels| ==> labels[i] != labels[j])
  {
    var labels := YearLabels(startYear, endYear);
    forall i | 0 <= i < |labels|
      ensures ParseInt(labels[i]) == Some(startYear + i)
    {
      IntToStringRoundTrip(startYear + i);
    }
  }

  /** `w === 'sushi' ? 'rgb(255, 99, 132)' : 'rgb(75, 192, 192)'` */
  function YearColor(w: string): string
  {
    if w == "sushi" then "rgb(255, 99, 132)" else "rgb(75, 192, 192)"
  }

  /** The line is red exactly for "sushi" and green for every other word. */
  lemma YearColorRule(w: string)
    ensures YearColor(w) == "rgb(255, 99, 132)" <==> w == "sushi"
    ensures YearColor(w) == "rgb(75, 192, 192)" <==> w != "sushi"
  {
    assert "rgb(255, 99, 132)"[4] != "rgb(75, 192, 192)"[4];
  }

  /** One line per grouped word, in key order, with `counts[year] || 0` per label. */
  function YearlyDatasets(g: CountTable, labels: seq<string>): (r: seq<Dataset>)
    ensures |r| == |g.words|
  {
    seq(|g.words|, idx requires 0 <= idx < |g.words| =>
      Dataset(g.words[idx], Aligned(g, g.words[idx], labels), YearColor(g.words[idx])))
  }

  /**
   * The lines of a grouped response: one per response word in order of
   * first appearance, aligned with the labels; a year the response gave for
   * the word reads the count of the last such key, any other year reads 0.
   */
  lemma YearlyDatasetsSpec(json: seq<Entry>, labels: seq<string>)
    ensures var g := Group(json);
      var r := YearlyDatasets(g, labels);
      && (forall idx :: 0 <= idx < |r| ==> r[idx].legend == g.words[idx] && |r[idx].data| == |labels|)
      && (forall idx, i :: 0 <= idx < |r| && 0 <= i < |labels| ==>
            if Sent(json, g.words[idx], labels[i])
            then exists k :: LastFor(json, k, g.words[idx], labels[i]) && r[idx].data[i] == json[k].count as real
            else r[idx].data[i] == 0.0)
  {
    GroupSpec(json);
    var g := Group(json);
    var r := YearlyDatasets(g, labels);
    forall idx, i | 0 <= idx < |r| && 0 <= i < |labels| && Sent(json, g.words[idx], labels[i])
      ensures exists k :: LastFor(json, k, g.words[idx], labels[i]) && r[idx].data[i] == json[k].count as real
    {
      assert Has(g, g.words[idx], labels[i]);
      assert LastWritten(json, g, g.words[idx], labels[i]);
    }
  }

  /** The fetch handler of `app.jsx` once the response has arrived. */
  method FetchYearly(json: seq<Entry>, startYear: int, endYear: int) returns (chart: Chart)
    ensures chart.labels == YearLabels(startYear, endYear)
    ensures chart.datasets == YearlyDatasets(Group(json), chart.labels)
    ensures forall idx :: 0 <= idx < |chart.datasets| ==>
      (chart.datasets[idx].borderColor == "rgb(255, 99, 132)" <==> chart.datasets[idx].legend == "sushi")
  {
    var grouped := GroupResponse(json);
    var labels := YearLabels(startYear, endYear);
    chart := Chart(labels, YearlyDatasets(grouped, labels));
    forall idx | 0 <= idx < |chart.datasets|
      ensures chart.datasets[idx].borderColor == "rgb(255, 99, 132)" <==> chart.datasets[idx].legend == "sushi"
    {
      YearColorRule(grouped.words[idx]);
    }
  }
}
