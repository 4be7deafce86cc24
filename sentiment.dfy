/**
 * The VADER bucketing shared by the sentiment reports: a compound score of at
 * least 0.05 is positive, at most -0.05 negative, anything between neutral.
 * The score itself comes from the analyser, which is not modelled.
 */
module Sentiment {
  import opened Common

  datatype Polarity = Positive | Negative | Neutral

  /** A title together with the compound score the analyser gave its text. */
  datatype Scored = Scored(title: string, compound: real)

  /** Exactly one bucket applies to every score. */
  function Classify(compound: real): (p: Polarity)
    ensures p == Positive <==> compound >= 0.05
    ensures p == Negative <==> compound <= -0.05
    ensures p == Neutral <==> -0.05 < compound < 0.05
  {
    if compound >= 0.05 then Positive
    else if compound <= -0.05 then Negative
    else Neutral
  }

  /** The titles, in order. */
  function Titles(xs: seq<Scored>): (ts: seq<string>)
    ensures |ts| == |xs|
  {
    if xs == [] then [] else Titles(xs[..|xs| - 1]) + [xs[|xs| - 1].title]
  }

  /** The polarity of each article, in order (the keys a Counter is bumped with). */
  function Polarities(xs: seq<Scored>): (ps: seq<Polarity>)
    ensures |ps| == |xs|
  {
    if xs == [] then [] else Polarities(xs[..|xs| - 1]) + [Classify(xs[|xs| - 1].compound)]
  }

  /** The titles whose score falls in bucket p, in order (one bucket list of the report). */
  function TitlesIn(xs: seq<Scored>, p: Polarity): seq<string>
  {
    if xs == [] then []
    else TitlesIn(xs[..|xs| - 1], p) + (if Classify(xs[|xs| - 1].compound) == p then [xs[|xs| - 1].title] else [])
  }

  /**
   * The three bucket lists partition the titles: together they hold every title
   * exactly as many times as it occurs, so their lengths add up to the number of articles.
   */
  lemma {:induction false} BucketsPartition(xs: seq<Scored>)
    ensures multiset(TitlesIn(xs, Positive)) + multiset(TitlesIn(xs, Negative)) + multiset(TitlesIn(xs, Neutral))
            == multiset(Titles(xs))
    ensures |TitlesIn(xs, Positive)| + |TitlesIn(xs, Negative)| + |TitlesIn(xs, Neutral)| == |xs|
  {
    if xs != [] {
      BucketsPartition(xs[..|xs| - 1]);
    }
  }

  /** The bucket lists of the report after the given articles. */
  function Buckets(xs: seq<Scored>): map<Polarity, seq<string>>
  {
    map[Positive := TitlesIn(xs, Positive), Negative := TitlesIn(xs, Negative), Neutral := TitlesIn(xs, Neutral)]
  }

  /** Classifying one more article appends its title to the list of its bucket and leaves the others alone. */
  lemma BucketsSnoc(xs: seq<Scored>, x: Scored)
    ensures var c := Classify(x.compound);
            Buckets(xs + [x]) == Buckets(xs)[c := Buckets(xs)[c] + [x.title]]
    ensures Polarities(xs + [x]) == Polarities(xs) + [Classify(x.compound)]
  {
    var ys := xs + [x];
    assert ys[..|ys| - 1] == xs;
    var c := Classify(x.compound);
    var m := Buckets(xs)[c := Buckets(xs)[c] + [x.title]];
    assert m[Positive] == Buckets(ys)[Positive] && m[Negative] == Buckets(ys)[Negative]
           && m[Neutral] == Buckets(ys)[Neutral];
  }

  /** The counter of the report agrees with its bucket lists, and its counts add up to the number of articles. */
  lemma ReportCounts(xs: seq<Scored>)
    ensures forall p :: p in Tally(Polarities(xs)) <==> TitlesIn(xs, p) != []
    ensures forall p :: p in Tally(Polarities(xs)) ==> Tally(Polarities(xs))[p] == |TitlesIn(xs, p)|
    ensures Sum(Tally(Polarities(xs))) == |xs|
  {
    TallySum(Polarities(xs));
    forall p ensures (p in Tally(Polarities(xs)) <==> TitlesIn(xs, p) != [])
                     && (p in Tally(Polarities(xs)) ==> Tally(Polarities(xs))[p] == |TitlesIn(xs, p)|) {
      TallyCounts(Polarities(xs), p);
      PolarityCount(xs, p);
    }
  }

  /** A bucket's list is as long as the number of articles classified into it. */
  lemma {:induction false} PolarityCount(xs: seq<Scored>, p: Polarity)
    ensures |TitlesIn(xs, p)| == Occurrences(Polarities(xs), p)
  {
    if xs != [] {
      PolarityCount(xs[..|xs| - 1], p);
    }
  }
}
