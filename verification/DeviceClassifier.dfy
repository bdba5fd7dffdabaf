/**
 * The offline classifier of a DHCP client (server/src/utils/device-classifier.js) over its rule set
 * (server/src/data/device-fingerprints.js), from the candidates its patterns matched.
 */
module DeviceClassifier {
  import opened Options

  datatype Signal = Opt60 | Opt55 | Hostname | Oui

  datatype Trait = OfOs | OfType

  datatype Rule = Rule(os: Option<string>, deviceType: Option<string>, confidence: nat)

  /** A rule that matched; an inexact option 55 list lowers its rule's confidence. */
  datatype Candidate = Candidate(os: Option<string>, deviceType: Option<string>, confidence: nat, signal: Signal)
  {
    function Says(t: Trait): Option<string> {
      if t == OfOs then os else deviceType
    }
  }

  datatype Classification = Classification(deviceType: Option<string>, os: Option<string>, confidence: nat)

  /** A value the program counts as known: neither NULL nor empty. */
  predicate Known(v: Option<string>) {
    v.Some? && v.value != ""
  }

  // ---- The rule set ----

  const OPT60_RULES: seq<Rule> := [
    Rule(Some("Windows"), Some("Computer"), 85), Rule(Some("Android"), Some("Smartphone"), 85),
    Rule(Some("Linux"), Some("Computer"), 55), Rule(Some("Linux"), Some("IoT"), 45),
    Rule(None, Some("Computer"), 40), Rule(None, Some("Printer"), 50)]

  const OPT55_SIGNATURES: seq<Rule> := [
    Rule(Some("Windows"), Some("Computer"), 80), Rule(Some("Windows"), Some("Computer"), 75),
    Rule(Some("macOS"), Some("Computer"), 75), Rule(Some("Apple iOS"), Some("Smartphone"), 70),
    Rule(Some("Apple iOS"), Some("Smartphone"), 60), Rule(Some("Android"), Some("Smartphone"), 70),
    Rule(Some("Android"), Some("Smartphone"), 72)]

  const HOSTNAME_RULES: seq<Rule> := [
    Rule(Some("Android"), Some("Smartphone"), 70), Rule(Some("Apple iOS"), Some("Smartphone"), 75),
    Rule(Some("Apple iOS"), Some("Tablet"), 75), Rule(Some("macOS"), Some("Computer"), 70),
    Rule(Some("Windows"), Some("Computer"), 65), Rule(Some("Linux"), Some("Computer"), 65),
    Rule(None, Some("IoT"), 60), Rule(None, Some("Media"), 60), Rule(None, Some("Printer"), 65)]

  const OUI_RULES: seq<Rule> := [
    Rule(None, Some("IP Camera"), 65), Rule(None, Some("IoT"), 60), Rule(Some("Linux"), Some("Computer"), 55),
    Rule(None, Some("Network"), 45), Rule(None, Some("Printer"), 40)]

  function RulesOf(signal: Signal): seq<Rule> {
    match signal
    case Opt60 => OPT60_RULES
    case Opt55 => OPT55_SIGNATURES
    case Hostname => HOSTNAME_RULES
    case Oui => OUI_RULES
  }

  predicate Matches(c: Candidate, r: Rule) {
    c.os == r.os && c.deviceType == r.deviceType && c.confidence <= r.confidence
    && (c.signal != Opt55 ==> c.confidence == r.confidence)
  }

  predicate FromRules(c: Candidate) {
    exists r :: r in RulesOf(c.signal) && Matches(c, r)
  }

  /** Every rule names a type, not every rule an OS, and none an empty one. */
  lemma RulesNameAType(c: Candidate)
    requires FromRules(c)
    ensures Known(c.deviceType) && c.os != Some("")
  {}

  // ---- The choice ----

  /** The value chosen so far and its confidence. */
  datatype Best = Best(value: Option<string>, confidence: nat)

  function BestOf(cs: seq<Candidate>, t: Trait): (b: Best)
    ensures b.value.Some? ==> Known(b.value)
    ensures b.value.None? <==> b.confidence == 0
  {
    if cs == [] then Best(None, 0)
    else
      var last, before := cs[|cs| - 1], BestOf(cs[..|cs| - 1], t);
      if Known(last.Says(t)) && last.confidence > before.confidence then Best(last.Says(t), last.confidence)
      else before
  }

  function SignalsFor(cs: seq<Candidate>, os: string): set<Signal> {
    set c | c in cs && c.os == Some(os) :: c.signal
  }

  function Max(a: nat, b: nat): nat {
    if a > b then a else b
  }

  /** Type and OS are chosen apart, but share one confidence, raised when two signals name the OS. */
  function Classify(cs: seq<Candidate>): Classification {
    var os, deviceType := BestOf(cs, OfOs), BestOf(cs, OfType);
    var top := Max(os.confidence, deviceType.confidence);
    Classification(deviceType.value, os.value,
                   if os.value.None? || |SignalsFor(cs, os.value.value)| < 2 then top
                   else if top + 10 < 100 then top + 10 else 100)
  }

  /** The candidate says the trait, with any confidence at all. */
  predicate Speaks(c: Candidate, t: Trait) {
    Known(c.Says(t)) && c.confidence > 0
  }

  /** The first of the most confident candidates that say the trait. */
  ghost predicate IsBest(cs: seq<Candidate>, t: Trait, k: nat) {
    && k < |cs| && Speaks(cs[k], t)
    && (forall i :: 0 <= i < |cs| && Speaks(cs[i], t) ==> cs[i].confidence <= cs[k].confidence)
    && forall i :: 0 <= i < k && Speaks(cs[i], t) ==> cs[i].confidence < cs[k].confidence
  }

  lemma {:induction false} BestIsFirstStrongest(cs: seq<Candidate>, t: Trait) returns (k: int)
    ensures k < 0 <==> forall c :: c in cs ==> !Speaks(c, t)
    ensures k < 0 ==> BestOf(cs, t) == Best(None, 0)
    ensures k >= 0 ==> IsBest(cs, t, k) && BestOf(cs, t) == Best(cs[k].Says(t), cs[k].confidence)
  {
    k := -1;
    if cs != [] {
      var n := |cs| - 1;
      k := BestIsFirstStrongest(cs[..n], t);
      assert cs == cs[..n] + [cs[n]];
      if Speaks(cs[n], t) && (k < 0 || cs[n].confidence > cs[k].confidence) {
        k := n;
      }
    }
  }

  /** From the rule set nothing empty comes out, and without a type no confidence. */
  lemma TypelessIsZero(cs: seq<Candidate>)
    requires forall c :: c in cs ==> FromRules(c)
    ensures var r := Classify(cs);
            && r.deviceType != Some("") && r.os != Some("")
            && (r.deviceType.None? ==> r.os.None? && r.confidence == 0)
  {
    hide FromRules;
    var k := BestIsFirstStrongest(cs, OfType);
    var j := BestIsFirstStrongest(cs, OfOs);
    if j >= 0 {
      RulesNameAType(cs[j]);
      assert Speaks(cs[j], OfType);
    }
  }

  /** The loop over the candidates. */
  method ClassifySignals(candidates: seq<Candidate>) returns (r: Classification)
    ensures r == Classify(candidates)
  {
    var os, osConf: nat, dev, devConf: nat := None, 0, None, 0;
    for k := 0 to |candidates|
      invariant Best(os, osConf) == BestOf(candidates[..k], OfOs)
      invariant Best(dev, devConf) == BestOf(candidates[..k], OfType)
    {
      var c := candidates[k];
      assert candidates[..k + 1][..k] == candidates[..k];
      if Known(c.os) && c.confidence > osConf {
        os, osConf := c.os, c.confidence;
      }
      if Known(c.deviceType) && c.confidence > devConf {
        dev, devConf := c.deviceType, c.confidence;
      }
    }
    assert candidates[..|candidates|] == candidates;
    var confidence := Max(osConf, devConf);
    if os.Some? && |SignalsFor(candidates, os.value)| >= 2 {
      confidence := if confidence + 10 < 100 then confidence + 10 else 100;
    }
    return Classification(dev, os, confidence);
  }
}
