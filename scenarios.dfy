/**
 * The replies the matcher gives to particular questions, against the
 * chatbot's own table. The fallback replies are left as a parameter: which
 * one is shown does not depend on the question.
 */
module Scenarios {
  import opened Text
  import opened KnowledgeBase
  import opened Matcher

  // ---------------------------------------------------------------------------
  // Tools for questions about the concrete table

  /** Entry `j` matches a message that includes one of its keywords. */
  lemma EntryMatches(j: nat, message: string, k: string)
    requires j < |Table| && k in Table[j].written && Contains(message, k)
    ensures Matches(Table[j], message)
  {
    TableKeywords(j);
  }

  /** None of the characters `cs` occurs in `s`. */
  predicate Avoids(s: string, cs: string) {
    forall i | 0 <= i < |s| :: s[i] !in cs
  }

  /** Entry `j` does not match a message that avoids the characters `cs`,
      when each keyword of the entry uses one of them: keyword `i` uses
      `marks[i]`. */
  lemma EntryAvoided(j: nat, message: string, cs: string, marks: string)
    requires j < |Table| && Avoids(message, cs)
    requires |marks| == |Table[j].written|
    requires forall i | 0 <= i < |marks| :: marks[i] in cs && marks[i] in Table[j].written[i]
    ensures !Matches(Table[j], message)
  {
    var ks := Table[j].written;
    forall k | k in ks ensures !Contains(message, k) {
      var i :| 0 <= i < |ks| && ks[i] == k;
      ContainsNeedsChar(message, k, marks[i]);
    }
    TableKeywords(j);
  }

  /** The reply is entry `j` when `j` matches and every earlier entry has been
      ruled out. */
  lemma AnswerIs(kb: seq<Entry>, fallbacks: seq<string>, message: string, pick: nat, j: nat)
    requires pick < |fallbacks| && j < |kb|
    requires Matches(kb[j], Lower(message))
    requires forall i :: 0 <= i < j ==> !Matches(kb[i], Lower(message))
    ensures GetResponse(kb, fallbacks, message, pick) == Answer(j)
  {
  }

  // ---------------------------------------------------------------------------
  // "How do I get a bearer token?"

  lemma BearerLowered()
    ensures Lower("How do I get a bearer token?") == "how do i get a bearer token?"
  {
  }

  lemma BearerMatches()
    ensures Matches(Table[0], "how do i get a bearer token?")
  {
    ContainsInfix("how do i get a bearer ", "token", "?");
    assert "how do i get a bearer " + "token" + "?" == "how do i get a bearer token?";
    EntryMatches(0, "how do i get a bearer token?", "token");
  }

  /** A question about bearer tokens is answered by the authentication entry. */
  lemma BearerTokenQuestion(fallbacks: seq<string>, pick: nat)
    requires pick < |fallbacks|
    ensures GetResponse(Table, fallbacks, "How do I get a bearer token?", pick) == Answer(0)
  {
    BearerLowered();
    BearerMatches();
    AnswerIs(Table, fallbacks, "How do I get a bearer token?", pick, 0);
  }

  // ---------------------------------------------------------------------------
  // "AUTHENTICATION"

  lemma ShoutedLowered()
    ensures Lower("AUTHENTICATION") == "authentication"
  {
  }

  lemma ShoutedMatches()
    ensures Matches(Table[0], "authentication")
  {
    ContainsInfix("", "authentication", "");
    assert "" + "authentication" + "" == "authentication";
    EntryMatches(0, "authentication", "authentication");
  }

  /** Upper-case input reaches the same entry as lower-case input. */
  lemma ShoutedKeyword(fallbacks: seq<string>, pick: nat)
    requires pick < |fallbacks|
    ensures GetResponse(Table, fallbacks, "AUTHENTICATION", pick) == Answer(0)
  {
    ShoutedLowered();
    ShoutedMatches();
    AnswerIs(Table, fallbacks, "AUTHENTICATION", pick, 0);
  }

  // ---------------------------------------------------------------------------
  // "authorise"

  lemma AuthoriseLowered()
    ensures Lower("authorise") == "authorise"
  {
    LowerFixesLowerText("authorise");
  }

  lemma AuthoriseIsKeyword()
    ensures "authorise" in Keywords(Table[8])
  {
    TableKeywords(8);
  }

  lemma AuthoriseMatches()
    ensures Matches(Table[0], "authorise")
  {
    ContainsInfix("", "auth", "orise");
    assert "" + "auth" + "orise" == "authorise";
    EntryMatches(0, "authorise", "auth");
  }

  /** `authorise`, a keyword of the next-action entry (index 8), is answered
      by the authentication entry, whose keyword `auth` it includes: an
      entry's own keyword does not always reach that entry. */
  lemma AuthoriseIsShadowed(fallbacks: seq<string>, pick: nat)
    requires pick < |fallbacks|
    ensures "authorise" in Keywords(Table[8])
    ensures GetResponse(Table, fallbacks, "authorise", pick) == Answer(0)
  {
    AuthoriseIsKeyword();
    AuthoriseLowered();
    AuthoriseMatches();
    AnswerIs(Table, fallbacks, "authorise", pick, 0);
  }

  // ---------------------------------------------------------------------------
  // "failed"

  lemma FailedLowered()
    ensures Lower("failed") == "failed"
  {
    LowerFixesLowerText("failed");
  }

  lemma FailedIsKeyword()
    ensures "failed" in Keywords(Table[9])
  {
    TableKeywords(9);
  }

  lemma FailedMatches()
    ensures Matches(Table[7], "failed")
  {
    ContainsInfix("", "failed", "");
    assert "" + "failed" + "" == "failed";
    EntryMatches(7, "failed", "failed");
  }

  lemma FailedAvoids()
    ensures Avoids("failed", "bcgmnoprstuvx")
  {
  }

  // No entry before the response-format entry matches `failed`.

  lemma FailedMisses0()
    ensures !Matches(Table[0], "failed")
  {
    FailedAvoids();
    EntryAvoided(0, "failed", "bcgmnoprstuvx", "uutbo");
  }

  lemma FailedMisses1()
    ensures !Matches(Table[1], "failed")
  {
    FailedAvoids();
    EntryAvoided(1, "failed", "bcgmnoprstuvx", "scgs");
  }

  lemma FailedMisses2()
    ensures !Matches(Table[2], "failed")
  {
    FailedAvoids();
    EntryAvoided(2, "failed", "bcgmnoprstuvx", "ttrx");
  }

  lemma FailedMisses3()
    ensures !Matches(Table[3], "failed")
  {
    FailedAvoids();
    EntryAvoided(3, "failed", "bcgmnoprstuvx", "pvppmcb");
  }

  lemma FailedMisses4()
    ensures !Matches(Table[4], "failed")
  {
    FailedAvoids();
    EntryAvoided(4, "failed", "bcgmnoprstuvx", "mmrvm");
  }

  lemma FailedMisses5()
    ensures !Matches(Table[5], "failed")
  {
    FailedAvoids();
    EntryAvoided(5, "failed", "bcgmnoprstuvx", "nscp");
  }

  lemma FailedMisses6()
    ensures !Matches(Table[6], "failed")
  {
    FailedAvoids();
    EntryAvoided(6, "failed", "bcgmnoprstuvx", "cux");
  }

  /** `failed` is a keyword of both the response-format entry (index 7) and
      the error-code entry (index 9); the earlier one always answers. */
  lemma FailedGoesToResponseFormat(fallbacks: seq<string>, pick: nat)
    requires pick < |fallbacks|
    ensures "failed" in Keywords(Table[9])
    ensures GetResponse(Table, fallbacks, "failed", pick) == Answer(7)
  {
    FailedIsKeyword();
    FailedLowered();
    FailedMatches();
    forall i | 0 <= i < 7 ensures !Matches(Table[i], "failed") {
      if i == 0 {
        FailedMisses0();
      } else if i == 1 {
        FailedMisses1();
      } else if i == 2 {
        FailedMisses2();
      } else if i == 3 {
        FailedMisses3();
      } else if i == 4 {
        FailedMisses4();
      } else if i == 5 {
        FailedMisses5();
      } else {
        FailedMisses6();
      }
    }
    AnswerIs(Table, fallbacks, "failed", pick, 7);
  }

  // ---------------------------------------------------------------------------
  // "I want to send mobile money to MTN"

  lemma MobileMoneyLowered()
    ensures Lower("I want to send mobile money to MTN") == "i want to send mobile money to mtn"
  {
  }

  lemma MobileMoneyIsKeyword()
    ensures "mobile money" in Keywords(Table[4]) && "mtn" in Keywords(Table[4])
  {
    TableKeywords(4);
  }

  lemma MobileMoneyMatches()
    ensures Matches(Table[3], "i want to send mobile money to mtn")
  {
    ContainsInfix("i want to send ", "mobile", " money to mtn");
    assert "i want to send " + "mobile" + " money to mtn" == "i want to send mobile money to mtn";
    EntryMatches(3, "i want to send mobile money to mtn", "mobile");
  }

  lemma MobileMoneyAvoids()
    ensures Avoids("i want to send mobile money to mtn", "cgkrux")
  {
  }

  // No entry before the API-code entry matches the mobile-money question.

  lemma MobileMoneyMisses0()
    ensures !Matches(Table[0], "i want to send mobile money to mtn")
  {
    MobileMoneyAvoids();
    EntryAvoided(0, "i want to send mobile money to mtn", "cgkrux", "uukrg");
  }

  lemma MobileMoneyMisses1()
    ensures !Matches(Table[1], "i want to send mobile money to mtn")
  {
    MobileMoneyAvoids();
    EntryAvoided(1, "i want to send mobile money to mtn", "cgkrux", "ccgc");
  }

  lemma MobileMoneyMisses2()
    ensures !Matches(Table[2], "i want to send mobile money to mtn")
  {
    MobileMoneyAvoids();
    EntryAvoided(2, "i want to send mobile money to mtn", "cgkrux", "kkrx");
  }

  lemma MobileMoneyMissesEarlier()
    ensures forall i :: 0 <= i < 3 ==> !Matches(Table[i], "i want to send mobile money to mtn")
  {
    MobileMoneyMisses0();
    MobileMoneyMisses1();
    MobileMoneyMisses2();
  }

  /** A question about sending mobile money to MTN is answered by the
      API-code entry, whose keyword `mobile` comes before the mobile-money
      entry that lists `mobile money` and `mtn` (see `MobileMoneyIsKeyword`). */
  lemma MobileMoneyGoesToApiCodes(fallbacks: seq<string>, pick: nat)
    requires pick < |fallbacks|
    ensures GetResponse(Table, fallbacks, "I want to send mobile money to MTN", pick) == Answer(3)
  {
    MobileMoneyLowered();
    MobileMoneyMatches();
    MobileMoneyMissesEarlier();
    AnswerIs(Table, fallbacks, "I want to send mobile money to MTN", pick, 3);
  }

  // ---------------------------------------------------------------------------
  // "Hello"

  lemma HelloAvoids()
    ensures Avoids("hello", "abcfgikmnpqrstuvwx")
  {
  }

  // No entry matches `hello`.

  lemma HelloMisses0()
    ensures !Matches(Table[0], "hello")
  {
    HelloAvoids();
    EntryAvoided(0, "hello", "abcfgikmnpqrstuvwx", "aatbg");
  }

  lemma HelloMisses1()
    ensures !Matches(Table[1], "hello")
  {
    HelloAvoids();
    EntryAvoided(1, "hello", "abcfgikmnpqrstuvwx", "scgs");
  }

  lemma HelloMisses2()
    ensures !Matches(Table[2], "hello")
  {
    HelloAvoids();
    EntryAvoided(2, "hello", "abcfgikmnpqrstuvwx", "ttrx");
  }

  lemma HelloMisses3()
    ensures !Matches(Table[3], "hello")
  {
    HelloAvoids();
    EntryAvoided(3, "hello", "abcfgikmnpqrstuvwx", "aappmcb");
  }

  lemma HelloMisses4()
    ensures !Matches(Table[4], "hello")
  {
    HelloAvoids();
    EntryAvoided(4, "hello", "abcfgikmnpqrstuvwx", "mmavm");
  }

  lemma HelloMisses5()
    ensures !Matches(Table[5], "hello")
  {
    HelloAvoids();
    EntryAvoided(5, "hello", "abcfgikmnpqrstuvwx", "iscp");
  }

  lemma HelloMisses6()
    ensures !Matches(Table[6], "hello")
  {
    HelloAvoids();
    EntryAvoided(6, "hello", "abcfgikmnpqrstuvwx", "cfx");
  }

  lemma HelloMisses7()
    ensures !Matches(Table[7], "hello")
  {
    HelloAvoids();
    EntryAvoided(7, "hello", "abcfgikmnpqrstuvwx", "rpsfs");
  }

  lemma HelloMisses8()
    ensures !Matches(Table[8], "hello")
  {
    HelloAvoids();
    EntryAvoided(8, "hello", "abcfgikmnpqrstuvwx", "npaa");
  }

  lemma HelloMisses9()
    ensures !Matches(Table[9], "hello")
  {
    HelloAvoids();
    EntryAvoided(9, "hello", "abcfgikmnpqrstuvwx", "rrrrfr");
  }

  lemma HelloMisses10()
    ensures !Matches(Table[10], "hello")
  {
    HelloAvoids();
    EntryAvoided(10, "hello", "abcfgikmnpqrstuvwx", "wcwcw");
  }

  lemma HelloMisses11()
    ensures !Matches(Table[11], "hello")
  {
    HelloAvoids();
    EntryAvoided(11, "hello", "abcfgikmnpqrstuvwx", "rrar");
  }

  lemma HelloMisses12()
    ensures !Matches(Table[12], "hello")
  {
    HelloAvoids();
    EntryAvoided(12, "hello", "abcfgikmnpqrstuvwx", "cnn");
  }

  lemma HelloMisses13()
    ensures !Matches(Table[13], "hello")
  {
    HelloAvoids();
    EntryAvoided(13, "hello", "abcfgikmnpqrstuvwx", "riutr");
  }

  lemma HelloMisses14()
    ensures !Matches(Table[14], "hello")
  {
    HelloAvoids();
    EntryAvoided(14, "hello", "abcfgikmnpqrstuvwx", "cccvm");
  }

  lemma HelloMisses15()
    ensures !Matches(Table[15], "hello")
  {
    HelloAvoids();
    EntryAvoided(15, "hello", "abcfgikmnpqrstuvwx", "bbpw");
  }

  lemma HelloMisses16()
    ensures !Matches(Table[16], "hello")
  {
    HelloAvoids();
    EntryAvoided(16, "hello", "abcfgikmnpqrstuvwx", "mpsw");
  }

  lemma HelloMisses17()
    ensures !Matches(Table[17], "hello")
  {
    HelloAvoids();
    EntryAvoided(17, "hello", "abcfgikmnpqrstuvwx", "iwgsqq");
  }

  lemma HelloMisses18()
    ensures !Matches(Table[18], "hello")
  {
    HelloAvoids();
    EntryAvoided(18, "hello", "abcfgikmnpqrstuvwx", "crukc");
  }

  lemma HelloMisses19()
    ensures !Matches(Table[19], "hello")
  {
    HelloAvoids();
    EntryAvoided(19, "hello", "abcfgikmnpqrstuvwx", "ccrukn");
  }

  lemma HelloMisses20()
    ensures !Matches(Table[20], "hello")
  {
    HelloAvoids();
    EntryAvoided(20, "hello", "abcfgikmnpqrstuvwx", "fftcc");
  }

  lemma HelloMisses21()
    ensures !Matches(Table[21], "hello")
  {
    HelloAvoids();
    EntryAvoided(21, "hello", "abcfgikmnpqrstuvwx", "ttsst");
  }

  lemma HelloMisses22()
    ensures !Matches(Table[22], "hello")
  {
    HelloAvoids();
    EntryAvoided(22, "hello", "abcfgikmnpqrstuvwx", "ssbsa");
  }

  /** A greeting matches no entry and gets the picked fallback reply. */
  lemma GreetingFallsBack(fallbacks: seq<string>, pick: nat)
    requires pick < |fallbacks|
    ensures GetResponse(Table, fallbacks, "Hello", pick) == Fallback(fallbacks[pick])
  {
    assert Lower("Hello") == "hello";
    forall j | 0 <= j < |Table| ensures !Matches(Table[j], "hello") {
      if j == 0 {
        HelloMisses0();
      } else if j == 1 {
        HelloMisses1();
      } else if j == 2 {
        HelloMisses2();
      } else if j == 3 {
        HelloMisses3();
      } else if j == 4 {
        HelloMisses4();
      } else if j == 5 {
        HelloMisses5();
      } else if j == 6 {
        HelloMisses6();
      } else if j == 7 {
        HelloMisses7();
      } else if j == 8 {
        HelloMisses8();
      } else if j == 9 {
        HelloMisses9();
      } else if j == 10 {
        HelloMisses10();
      } else if j == 11 {
        HelloMisses11();
      } else if j == 12 {
        HelloMisses12();
      } else if j == 13 {
        HelloMisses13();
      } else if j == 14 {
        HelloMisses14();
      } else if j == 15 {
        HelloMisses15();
      } else if j == 16 {
        HelloMisses16();
      } else if j == 17 {
        HelloMisses17();
      } else if j == 18 {
        HelloMisses18();
      } else if j == 19 {
        HelloMisses19();
      } else if j == 20 {
        HelloMisses20();
      } else if j == 21 {
        HelloMisses21();
      } else {
        HelloMisses22();
      }
    }
  }

  // ---------------------------------------------------------------------------
  // ""

  /** The empty message gets the picked fallback reply. */
  lemma EmptyQuestion(fallbacks: seq<string>, pick: nat)
    requires pick < |fallbacks|
    ensures GetResponse(Table, fallbacks, "", pick) == Fallback(fallbacks[pick])
  {
    TableWellFormed();
    EmptyMessageFallsBack(Table, fallbacks, pick);
  }
}
