/**
 * The keyword matcher, `getResponse`: lower-case the message, visit the
 * table's entries in order and each entry's keywords left to right, and
 * answer with the first entry one of whose keywords the message includes;
 * when none does, answer with the fallback reply the caller's random index
 * picks.
 */
module Matcher {
  import opened Text
  import opened KnowledgeBase
  import opened Wrappers

  /** What `getResponse` returns: the response of table entry `entry`, or the
      fallback reply `text`. */
  datatype Reply = Answer(entry: nat) | Fallback(text: string)

  /** The inner loop: whether some keyword of `keywords`, tried left to right,
      occurs in `message`. */
  function AnyIncluded(keywords: seq<string>, message: string): (hit: bool)
    ensures hit <==> exists k :: k in keywords && Contains(message, k)
  {
    if keywords == [] then false
    else Contains(message, keywords[0]) || AnyIncluded(keywords[1..], message)
  }

  /** Entry `e` matches `message` (taken as already lower-cased): some keyword
      of `e` occurs in it. */
  predicate Matches(e: Entry, message: string) {
    AnyIncluded(Keywords(e), message)
  }

  /** The outer loop from entry `i` on: the index of the first entry of `kb`
      at or after `i` with a keyword in `message`, or `None` when there is
      none. */
  function FirstMatchFrom(kb: seq<Entry>, message: string, i: nat): (r: Option<nat>)
    requires i <= |kb|
    ensures r.Some? ==> i <= r.value < |kb| && Matches(kb[r.value], message)
    ensures r.Some? ==> forall j :: i <= j < r.value ==> !Matches(kb[j], message)
    ensures r.None? <==> forall j :: i <= j < |kb| ==> !Matches(kb[j], message)
    decreases |kb| - i
  {
    if i == |kb| then None
    else if Matches(kb[i], message) then Some(i)
    else FirstMatchFrom(kb, message, i + 1)
  }

  /** The index of the first entry of `kb` with a keyword in `message`. */
  function FirstMatch(kb: seq<Entry>, message: string): Option<nat> {
    FirstMatchFrom(kb, message, 0)
  }

  /** `getResponse(message)` against the table `kb` and the fallback replies
      `fallbacks`; `pick` stands for `Math.floor(Math.random() * fallbacks.length)`. */
  function GetResponse(kb: seq<Entry>, fallbacks: seq<string>, message: string, pick: nat): (r: Reply)
    requires pick < |fallbacks|
    ensures r.Answer? ==> r.entry < |kb| && Matches(kb[r.entry], Lower(message))
    ensures r.Answer? ==> forall j :: 0 <= j < r.entry ==> !Matches(kb[j], Lower(message))
    ensures r.Fallback? <==> forall j :: 0 <= j < |kb| ==> !Matches(kb[j], Lower(message))
    ensures r.Fallback? ==> r.text == fallbacks[pick]
  {
    match FirstMatchFrom(kb, Lower(message), 0)
    case Some(j) => Answer(j)
    case None => Fallback(fallbacks[pick])
  }

  /** The chatbot's own `getResponse`: the matcher over the knowledge base
      and `FALLBACK_RESPONSES`. An answer is an entry of the table, and a
      fallback is one of the five fallback replies. */
  function ChatbotReply(message: string, pick: nat): (r: Reply)
    requires pick < |Fallbacks|
    ensures r.Answer? ==> r.entry < |Table| && Matches(Table[r.entry], Lower(message))
    ensures r.Fallback? <==> forall j :: 0 <= j < |Table| ==> !Matches(Table[j], Lower(message))
    ensures r.Answer? ==> forall j :: 0 <= j < r.entry ==> !Matches(Table[j], Lower(message))
    ensures r.Fallback? ==> r.text == Fallbacks[pick] && r.text in Fallbacks
  {
    GetResponse(Table, Fallbacks, message, pick)
  }

  /** `getResponse` as the source writes it: a loop over the entries with a
      loop over each entry's keywords inside it, and an early return on the
      first keyword the lower-cased message includes. */
  method GetResponseLoop(kb: seq<Entry>, fallbacks: seq<string>, message: string, pick: nat)
    returns (r: Reply)
    requires pick < |fallbacks|
    ensures r == GetResponse(kb, fallbacks, message, pick)
  {
    var lowered := Lower(message);
    var i := 0;
    while i < |kb|
      invariant 0 <= i <= |kb|
      invariant forall j :: 0 <= j < i ==> !Matches(kb[j], lowered)
    {
      var keywords := Split(RawKey(kb[i]), Separator);
      ghost var ks := Keywords(kb[i]);
      TrimAllAt(keywords);
      assert |ks| == |keywords| && forall u :: 0 <= u < |ks| ==> ks[u] == Trim(keywords[u]);
      var t := 0;
      while t < |keywords|
        invariant 0 <= t <= |keywords|
        invariant forall u :: 0 <= u < t ==> !Contains(lowered, ks[u])
      {
        if Contains(lowered, Trim(keywords[t])) {
          assert ks[t] in ks;
          FirstMatchIsEarliest(kb, lowered, i);
          return Answer(i);
        }
        t := t + 1;
      }
      assert !Matches(kb[i], lowered) by {
        forall k | k in ks ensures !Contains(lowered, k) {
          var u :| 0 <= u < |ks| && k == ks[u];
        }
      }
      i := i + 1;
    }
    r := Fallback(fallbacks[pick]);
  }

  /** The `FirstMatch` contract pins its result down: an entry that matches
      and has no matching entry before it is the one `FirstMatch` returns. */
  lemma {:induction false} FirstMatchIsEarliest(kb: seq<Entry>, message: string, i: nat)
    requires i < |kb| && Matches(kb[i], message)
    requires forall j :: 0 <= j < i ==> !Matches(kb[j], message)
    ensures FirstMatchFrom(kb, message, 0) == Some(i)
  {
  }

  // ---------------------------------------------------------------------------
  // Properties of the matcher

  /** Matching ignores case: a message and its lower-cased form get the same
      reply. */
  lemma CaseInsensitive(kb: seq<Entry>, fallbacks: seq<string>, message: string, pick: nat)
    requires pick < |fallbacks|
    ensures GetResponse(kb, fallbacks, Lower(message), pick) == GetResponse(kb, fallbacks, message, pick)
  {
    LowerIdempotent(message);
  }

  /** Asking with one of an entry's own keywords always gets an answer, from
      that entry or from an earlier one that shadows it. */
  lemma KeywordIsAnswered(kb: seq<Entry>, fallbacks: seq<string>, j: nat, k: string, pick: nat)
    requires WellFormed(kb) && pick < |fallbacks|
    requires j < |kb| && k in Keywords(kb[j])
    ensures GetResponse(kb, fallbacks, k, pick).Answer?
    ensures GetResponse(kb, fallbacks, k, pick).entry <= j
  {
    LowerFixesLowerText(k);
    ContainsSelf(k);
    assert Matches(kb[j], Lower(k));
  }

  /** The empty message matches no entry of a well-formed table, so it gets
      the picked fallback reply. */
  lemma EmptyMessageFallsBack(kb: seq<Entry>, fallbacks: seq<string>, pick: nat)
    requires WellFormed(kb) && pick < |fallbacks|
    ensures GetResponse(kb, fallbacks, "", pick) == Fallback(fallbacks[pick])
  {
    forall j | 0 <= j < |kb| ensures !Matches(kb[j], Lower("")) {
      forall k | k in Keywords(kb[j]) ensures !Contains(Lower(""), k) {
        if Contains(Lower(""), k) {
          ContainsNeedsLength(Lower(""), k);
        }
      }
    }
  }

  /** Entries after the answering one are never consulted: appending entries
      to the table does not change an answer. */
  lemma AnswerIgnoresLaterEntries(kb: seq<Entry>, extra: seq<Entry>, fallbacks: seq<string>, message: string, pick: nat)
    requires pick < |fallbacks|
    requires GetResponse(kb, fallbacks, message, pick).Answer?
    ensures GetResponse(kb + extra, fallbacks, message, pick) == GetResponse(kb, fallbacks, message, pick)
  {
    var i := GetResponse(kb, fallbacks, message, pick).entry;
    assert (kb + extra)[i] == kb[i];
    assert forall j :: 0 <= j < i ==> (kb + extra)[j] == kb[j];
  }

  /** A message no entry of `kb` matches is answered, if at all, by an entry
      appended after `kb`. */
  lemma FallbackLooksOnlyFurther(kb: seq<Entry>, extra: seq<Entry>, fallbacks: seq<string>, message: string, pick: nat)
    requires pick < |fallbacks|
    requires GetResponse(kb, fallbacks, message, pick).Fallback?
    ensures GetResponse(kb + extra, fallbacks, message, pick).Answer? ==>
      GetResponse(kb + extra, fallbacks, message, pick).entry >= |kb|
  {
  }
}
