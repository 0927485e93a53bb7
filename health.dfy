/**
 * `compute_health` in wifi.py: the qualitative label, and the colour class
 * the page shows it in, for a measured download speed in Mbps (or none when
 * the speed test failed).
 */
module Health {
  import opened Options

  datatype Label = Unknown | Weak | Fair | Good | Excellent

  /** The label as the JSON payload spells it. */
  function LabelText(l: Label): string {
    match l
    case Unknown => "Unknown"
    case Weak => "Weak"
    case Fair => "Fair"
    case Good => "Good"
    case Excellent => "Excellent"
  }

  /** The JSON payload's label text names the label: no two labels share one. */
  lemma LabelTextIdentifiesLabel(a: Label, b: Label)
    ensures LabelText(a) == LabelText(b) ==> a == b
  {
  }

  /** The colour class paired with each label. */
  function Colour(l: Label): string {
    match l
    case Unknown => "text-gray-400"
    case Weak => "text-red-500"
    case Fair => "text-orange-400"
    case Good => "text-yellow-400"
    case Excellent => "text-green-400"
  }

  /** Position of a measured label, worst to best; `Unknown` ranks below all. */
  function Rank(l: Label): nat {
    match l
    case Unknown => 0
    case Weak => 1
    case Fair => 2
    case Good => 3
    case Excellent => 4
  }

  /** A download of `d` Mbps reaches the inclusive lower bound of tier `l`. */
  predicate MeetsTier(d: real, l: Label) {
    match l
    case Unknown => false
    case Weak => true
    case Fair => d >= 10.0
    case Good => d >= 50.0
    case Excellent => d >= 100.0
  }

  datatype Rating = Rating(tier: Label, colour: string)

  /**
   * The tiers are tried from the best down, so the label is the highest
   * tier whose lower bound the speed reaches; no speed gives `Unknown`.
   */
  function ComputeHealth(download: Option<real>): (h: Rating)
    ensures h.colour == Colour(h.tier)
    ensures h.tier == Unknown <==> download.None?
    ensures download.Some? ==> MeetsTier(download.value, h.tier)
    ensures download.Some? ==> forall l :: Rank(l) > Rank(h.tier) ==> !MeetsTier(download.value, l)
  {
    match download
    case None => Rating(Unknown, "text-gray-400")
    case Some(d) =>
      if d >= 100.0 then Rating(Excellent, "text-green-400")
      else if d >= 50.0 then Rating(Good, "text-yellow-400")
      else if d >= 10.0 then Rating(Fair, "text-orange-400")
      else Rating(Weak, "text-red-500")
  }

  /** Each tier is a half-open interval of speeds; the boundaries belong to the higher tier. */
  lemma TierIntervals(d: real)
    ensures ComputeHealth(Some(d)).tier == Excellent <==> 100.0 <= d
    ensures ComputeHealth(Some(d)).tier == Good <==> 50.0 <= d < 100.0
    ensures ComputeHealth(Some(d)).tier == Fair <==> 10.0 <= d < 50.0
    ensures ComputeHealth(Some(d)).tier == Weak <==> d < 10.0
  {
    var h := ComputeHealth(Some(d));
    assert Rank(Excellent) > Rank(h.tier) ==> !MeetsTier(d, Excellent);
    assert Rank(Good) > Rank(h.tier) ==> !MeetsTier(d, Good);
    assert Rank(Fair) > Rank(h.tier) ==> !MeetsTier(d, Fair);
  }

  /** A faster download never gets a worse label. */
  lemma HealthMonotone(d1: real, d2: real)
    requires d1 <= d2
    ensures Rank(ComputeHealth(Some(d1)).tier) <= Rank(ComputeHealth(Some(d2)).tier)
  {
    TierIntervals(d1);
    TierIntervals(d2);
  }

  /** Labels and colours correspond one to one. */
  lemma ColourIdentifiesLabel(a: Label, b: Label)
    ensures Colour(a) == Colour(b) <==> a == b
  {
  }

  /** The boundary values: 100 is Excellent, 50 is Good, 10 is Fair, 0 is Weak. */
  lemma BoundaryExamples()
    ensures ComputeHealth(None) == Rating(Unknown, "text-gray-400")
    ensures ComputeHealth(Some(100.0)).tier == Excellent
    ensures ComputeHealth(Some(99.99)).tier == Good
    ensures ComputeHealth(Some(50.0)).tier == Good
    ensures ComputeHealth(Some(49.99)).tier == Fair
    ensures ComputeHealth(Some(10.0)).tier == Fair
    ensures ComputeHealth(Some(9.99)).tier == Weak
    ensures ComputeHealth(Some(0.0)) == Rating(Weak, "text-red-500")
  {
  }
}
