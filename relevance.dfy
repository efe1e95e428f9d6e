/**
 * The relevance filter in `select_relevant_images`: which entries of a tab's
 * folder are kept, given the reply the generation service gives for each.
 */
module Relevance {
  import opened Wrappers
  import opened PyStr
  import Reply
  import Capture

  /**
   * The service's reply about each image of one folder, by file name; an
   * image the map does not list gets no reply.
   */
  type Replies = map<string, Option<string>>

  function ReplyTo(replies: Replies, file: string): Option<string>
  {
    if file in replies then replies[file] else None
  }

  const RelevantWord: string := "true"

  /** `result and "true" in result.lower()`. */
  predicate IsRelevant(A: Alphabet, reply: Option<string>)
  {
    reply.Some? && reply.value != [] && Contains(Lower(A, reply.value), RelevantWord)
  }

  /**
   * The verdict is positive exactly when there is a reply and "true" occurs
   * somewhere in its lower-cased form; the emptiness test adds nothing.
   */
  lemma IsRelevantIff(A: Alphabet, reply: Option<string>)
    ensures IsRelevant(A, reply) <==>
              reply.Some? && exists k :: OccursAt(Lower(A, reply.value), RelevantWord, k)
  {
    if reply.Some? {
      ContainsIff(Lower(A, reply.value), RelevantWord);
    }
  }

  /** Replies that count as a positive verdict, with the Latin-1 alphabet. */
  lemma PositiveVerdictExamples()
    ensures IsRelevant(Latin, Some("True."))
    ensures IsRelevant(Latin, Some("TRUE"))
    ensures IsRelevant(Latin, Some("it seems true"))
    ensures IsRelevant(Latin, Some("untrue"))
  {
    CapitalisedTrueIsPositive();
    AllCapsTrueIsPositive();
    EmbeddedTrueIsPositive();
  }

  lemma CapitalisedTrueIsPositive()
    ensures IsRelevant(Latin, Some("True."))
  {
    assert "True." == ['T'] + "rue.";
    LatinLowerOfCapitalised('T', "rue.");
    assert ['t'] + "rue." == "true.";
    OccursThenContains("true.", RelevantWord, 0);
  }

  lemma AllCapsTrueIsPositive()
    ensures IsRelevant(Latin, Some("TRUE"))
  {
    assert Lower(Latin, "TRUE") == "true" by {
      var l := Lower(Latin, "TRUE");
      assert l[0] == LatinLower('T') == 't';
      assert l[1] == LatinLower('R') == 'r';
      assert l[2] == LatinLower('U') == 'u';
      assert l[3] == LatinLower('E') == 'e';
    }
    OccursThenContains("true", RelevantWord, 0);
  }

  lemma EmbeddedTrueIsPositive()
    ensures IsRelevant(Latin, Some("it seems true"))
    ensures IsRelevant(Latin, Some("untrue"))
  {
    LatinLowerKeepsUncased("it seems true");
    assert OccursAt("it seems true", RelevantWord, 9);
    OccursThenContains("it seems true", RelevantWord, 9);
    LatinLowerKeepsUncased("untrue");
    assert OccursAt("untrue", RelevantWord, 2);
    OccursThenContains("untrue", RelevantWord, 2);
  }

  /** Replies that count as a negative verdict, with the Latin-1 alphabet. */
  lemma NegativeVerdictExamples()
    ensures !IsRelevant(Latin, Some("False"))
    ensures !IsRelevant(Latin, Some(""))
    ensures !IsRelevant(Latin, None)
    ensures !IsRelevant(Latin, Reply.ExtractReply(Reply.Raised(Reply.QuotaExhausted)))
  {
    assert "False" == ['F'] + "alse";
    LatinLowerOfCapitalised('F', "alse");
    assert ['f'] + "alse" == "false";
    IsRelevantIff(Latin, Some("False"));
    forall k
      ensures !OccursAt("false", RelevantWord, k)
    {
      if 0 <= k <= 1 {
        assert "false"[k..k + 4][0] != RelevantWord[0];
      }
    }
  }

  /** An entry is kept when it is a `.png` and the reply about it is a positive verdict. */
  predicate Kept(A: Alphabet, replies: Replies, entry: string)
  {
    EndsWith(entry, Capture.ImageExtension) && IsRelevant(A, ReplyTo(replies, entry))
  }

  /** The kept entries of `listing`, in listing order. */
  function Relevant(A: Alphabet, listing: seq<string>, replies: Replies): seq<string>
    decreases |listing|
  {
    if listing == [] then []
    else
      var n := |listing| - 1;
      Relevant(A, listing[..n], replies) + (if Kept(A, replies, listing[n]) then [listing[n]] else [])
  }

  /**
   * `select_relevant_images`: each `.png` entry of the folder listing is put
   * to the service (`replies` holds its reply) and kept on a positive verdict;
   * other entries are never asked about.
   */
  method SelectRelevantImages(A: Alphabet, listing: seq<string>, replies: Replies)
    returns (relevantes: seq<string>)
    ensures relevantes == Relevant(A, listing, replies)
  {
    relevantes := [];
    var k := 0;
    while k < |listing|
      invariant 0 <= k <= |listing|
      invariant relevantes == Relevant(A, listing[..k], replies)
    {
      assert listing[..k + 1][..k] == listing[..k];
      var file := listing[k];
      if EndsWith(file, Capture.ImageExtension) {
        var result := ReplyTo(replies, file);
        if result.Some? && result.value != [] && Contains(Lower(A, result.value), RelevantWord) {
          relevantes := relevantes + [file];
        }
      }
      k := k + 1;
    }
    assert listing[..|listing|] == listing;
  }

  /** The positions of the kept entries, in increasing order. */
  function KeptIndices(A: Alphabet, listing: seq<string>, replies: Replies): (r: seq<nat>)
    ensures forall j :: 0 <= j < |r| ==> r[j] < |listing| && Kept(A, replies, listing[r[j]])
    ensures forall j, l :: 0 <= j < l < |r| ==> r[j] < r[l]
    ensures forall k :: 0 <= k < |listing| && Kept(A, replies, listing[k]) ==> k in r
    decreases |listing|
  {
    if listing == [] then []
    else
      var n := |listing| - 1;
      assert forall k :: 0 <= k < n ==> listing[..n][k] == listing[k];
      KeptIndices(A, listing[..n], replies) + (if Kept(A, replies, listing[n]) then [n] else [])
  }

  /**
   * The relevant images are exactly the kept entries, as a subsequence of the
   * listing: the j-th result is the entry at the j-th kept position.
   */
  lemma {:induction false} RelevantIsOrderedFilter(A: Alphabet, listing: seq<string>, replies: Replies)
    ensures var r, idx := Relevant(A, listing, replies), KeptIndices(A, listing, replies);
      |r| == |idx| && forall j :: 0 <= j < |r| ==> r[j] == listing[idx[j]]
    decreases |listing|
  {
    if listing != [] {
      var n := |listing| - 1;
      RelevantIsOrderedFilter(A, listing[..n], replies);
      assert forall k :: 0 <= k < n ==> listing[..n][k] == listing[k];
    }
  }

  /** An entry is returned exactly when it is a listed `.png` with a positive verdict. */
  lemma RelevantMembership(A: Alphabet, listing: seq<string>, replies: Replies, x: string)
    ensures x in Relevant(A, listing, replies) <==>
              x in listing && EndsWith(x, Capture.ImageExtension) && IsRelevant(A, ReplyTo(replies, x))
  {
    RelevantIsOrderedFilter(A, listing, replies);
    var r, idx := Relevant(A, listing, replies), KeptIndices(A, listing, replies);
    if x in r {
      var j :| 0 <= j < |r| && r[j] == x;
      assert listing[idx[j]] == x;
    }
    if x in listing && Kept(A, replies, x) {
      var k :| 0 <= k < |listing| && listing[k] == x;
      var j :| 0 <= j < |idx| && idx[j] == k;
      assert r[j] == x;
    }
  }
}
