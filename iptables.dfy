/**
 * The `Iptables` object: the rules of one listing, fixed when the object is
 * made, and the `find` query over them. Where the original obtains the
 * listing by running `iptables`, `Load` is given the listing's text.
 */
module Firewall {
  import opened Wrappers
  import opened Rules
  import opened Listing
  import opened Query

  class Iptables {
    /** The rules of the listing, in listing order; never changed after construction. */
    const rules: seq<Rule>

    constructor (rules: seq<Rule>)
      ensures this.rules == rules
    {
      this.rules := rules;
    }

    /** `Iptables.load()` on the given listing text: parse it, then wrap the rules. */
    static method Load(listing: string) returns (res: Result<Iptables, Error>)
      ensures res.Err? <==> Parse(listing).Err?
      ensures res.Err? ==> res.error == Parse(listing).error
      ensures res.Ok? ==> fresh(res.value) && res.value.rules == Parse(listing).value
    {
      var parsed := ParseListing(listing);
      match parsed
      case Err(e) =>
        res := Err(e);
      case Ok(rs) =>
        var inst := new Iptables(rs);
        res := Ok(inst);
    }

    /**
     * `find(query)`: for each rule, test the queried fields one by one and stop at the first
     * field whose value is not accepted; keep the rule when every field passed.
     */
    method Find(query: Filter) returns (ret: seq<Rule>)
      ensures ret == Select(rules, query)
    {
      ret := [];
      var i := 0;
      while i < |rules|
        invariant 0 <= i <= |rules|
        invariant ret == Select(rules[..i], query)
      {
        var r := rules[i];
        var matchedAll := true;
        var pending := query.Keys;
        while pending != {}
          invariant pending <= query.Keys
          invariant matchedAll
          invariant forall f :: f in query && f !in pending ==> Get(r, f) in query[f]
          decreases |pending|
        {
          var f :| f in pending;
          if Get(r, f) !in query[f] {
            matchedAll := false;
            break;
          }
          pending := pending - {f};
        }
        assert matchedAll <==> Matches(r, query);
        assert rules[..i + 1] == rules[..i] + [r];
        if matchedAll {
          ret := ret + [r];
        }
        i := i + 1;
      }
      assert rules[..i] == rules;
    }
  }
}
