/**
 * Ayurveda.py: the Himachal Pradesh Ayurveda department tender page. Every
 * link with an href inside the page's tender tables is a candidate; links
 * without a title or with an empty href are dropped, and a (title, URL)
 * pair already collected is not collected again.
 */
module Ayurveda {
  import opened Html
  import opened Listing

  const Url := "https://ayurveda.hp.gov.in/Tenders.aspx"

  /** A record is exactly the script's de-duplication key `(title, tender_url)`. */
  datatype Tender = Tender(tenderTitle: string, tenderUrl: string)

  /** `if not title or not href: continue` lets the link through. */
  predicate Admits(a: Anchor)
  {
    a.text != "" && a.href.Some? && a.href.value != ""
  }

  /** The record a link gives before de-duplication: its href resolved against `URL`. */
  function Candidate(resolve: Resolver, a: Anchor): Tender
    requires Admits(a)
  {
    Tender(a.text, resolve(Url, a.href.value))
  }

  /** The filter as a loop step: an admitted link gives its record, any other is skipped. */
  function AdmitStep(resolve: Resolver): Anchor -> Step<Tender>
  {
    a => if Admits(a) then Emit(Candidate(resolve, a)) else Skip
  }

  /** The records of the admitted links, duplicates included, in link order. */
  function Accepted(resolve: Resolver, links: seq<Anchor>): (r: seq<Tender>)
    ensures |r| <= |links|
    ensures forall t :: t in r ==> t.tenderTitle != ""
    ensures forall t :: t in r <==> exists a :: a in links && Admits(a) && t == Candidate(resolve, a)
  {
    if links == [] then []
    else
      var init := Accepted(resolve, links[..|links| - 1]);
      var a := links[|links| - 1];
      assert forall b :: b in links <==> b in links[..|links| - 1] || b == a;
      if Admits(a) then init + [Candidate(resolve, a)] else init
  }

  /** `Accepted` is the row loop run with the filter as its step. */
  lemma {:induction false} AcceptedIsHarvest(resolve: Resolver, links: seq<Anchor>)
    ensures Harvest(links, AdmitStep(resolve)) == Ok(Accepted(resolve, links))
    decreases |links|
  {
    if links != [] {
      AcceptedIsHarvest(resolve, links[..|links| - 1]);
    }
  }

  /**
   * Link order is kept: the k-th record is the one the k-th admitted link
   * gives, the admitted links taken in order.
   */
  lemma AcceptedInLinkOrder(resolve: Resolver, links: seq<Anchor>)
    ensures var r, idx := Accepted(resolve, links), EmitIndices(links, AdmitStep(resolve));
      && |r| == |idx|
      && (forall k :: 0 <= k < |idx| ==> Admits(links[idx[k]]) && r[k] == Candidate(resolve, links[idx[k]]))
      && (forall k, l :: 0 <= k < l < |idx| ==> idx[k] < idx[l])
  {
    AcceptedIsHarvest(resolve, links);
    HarvestInRowOrder(links, AdmitStep(resolve));
  }

  /** The first occurrence of each element, in the order of first occurrence. */
  function FirstOccurrences(s: seq<Tender>): (r: seq<Tender>)
    ensures |r| <= |s|
    ensures forall x :: x in r <==> x in s
    ensures Distinct(r)
  {
    if s == [] then []
    else
      var init := FirstOccurrences(s[..|s| - 1]);
      var x := s[|s| - 1];
      assert forall y :: y in s <==> y in s[..|s| - 1] || y == x;
      if x in init then init else init + [x]
  }

  /** Dropping duplicates from a sequence without any leaves it as it is. */
  lemma {:induction false} FirstOccurrencesOfDistinct(s: seq<Tender>)
    requires Distinct(s)
    ensures FirstOccurrences(s) == s
  {
    if s != [] {
      var init := s[..|s| - 1];
      assert Distinct(init);
      FirstOccurrencesOfDistinct(init);
      assert s[|s| - 1] !in init;
      assert init + [s[|s| - 1]] == s;
    }
  }

  /** Dropping duplicates twice drops nothing more. */
  lemma FirstOccurrencesIdempotent(s: seq<Tender>)
    ensures FirstOccurrences(FirstOccurrences(s)) == FirstOccurrences(s)
  {
    FirstOccurrencesOfDistinct(FirstOccurrences(s));
  }

  /** The position of the first occurrence of `x` in `s`. */
  function IndexOf(s: seq<Tender>, x: Tender): (i: nat)
    requires x in s
    ensures i < |s| && s[i] == x
    ensures forall j :: 0 <= j < i ==> s[j] != x
  {
    if s[0] == x then 0 else 1 + IndexOf(s[1..], x)
  }

  /** In a sequence, the first occurrence of `x` is also its first occurrence in any longer one. */
  lemma IndexOfPrefix(s: seq<Tender>, y: Tender, x: Tender)
    requires x in s
    ensures x in s + [y] && IndexOf(s + [y], x) == IndexOf(s, x)
  {
    var i := IndexOf(s, x);
    var k := IndexOf(s + [y], x);
    assert (s + [y])[i] == x;
  }

  /**
   * The records come out in the order their first occurrences come in: a
   * record listed before another first occurred before it.
   */
  lemma {:induction false} FirstOccurrencesKeepOrder(s: seq<Tender>, j: nat, k: nat)
    requires j < k < |FirstOccurrences(s)|
    ensures IndexOf(s, FirstOccurrences(s)[j]) < IndexOf(s, FirstOccurrences(s)[k])
  {
    var init := s[..|s| - 1];
    var x := s[|s| - 1];
    var ri := FirstOccurrences(init);
    var r := FirstOccurrences(s);
    assert s == init + [x];
    assert r == if x in ri then ri else ri + [x];
    assert r[j] == ri[j] && ri[j] in init;
    IndexOfPrefix(init, x, r[j]);
    if k < |ri| {
      assert r[k] == ri[k] && ri[k] in init;
      IndexOfPrefix(init, x, r[k]);
      FirstOccurrencesKeepOrder(init, j, k);
    } else {
      assert x !in ri && r[k] == x;
      IndexOfNew(init, x);
    }
  }

  /** An element not in `s` first occurs in `s + [x]` at the end. */
  lemma IndexOfNew(s: seq<Tender>, x: Tender)
    requires x !in s
    ensures x in s + [x] && IndexOf(s + [x], x) == |s|
  {
  }

  /**
   * `Ayurved()` after the fetch: the loop over the selected links, keeping a
   * set of the keys already collected.
   */
  method Ayurved(links: seq<Anchor>, resolve: Resolver) returns (tenders: seq<Tender>)
    ensures tenders == FirstOccurrences(Accepted(resolve, links))
    ensures Distinct(tenders)
    ensures forall t :: t in tenders <==> exists a :: a in links && Admits(a) && t == Candidate(resolve, a)
    ensures |tenders| <= |links|
  {
    tenders := [];
    var seen: set<Tender> := {};
    for i := 0 to |links|
      invariant tenders == FirstOccurrences(Accepted(resolve, links[..i]))
      invariant seen == set t | t in tenders
    {
      assert links[..i + 1][..i] == links[..i];
      var a := links[i];
      if !Admits(a) {
        continue;
      }
      var key := Tender(a.text, resolve(Url, a.href.value));
      if key in seen {
        continue;
      }
      seen := seen + {key};
      tenders := tenders + [key];
    }
    assert links[..|links|] == links;
  }
}
