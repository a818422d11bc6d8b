/**
 * The static configuration the matcher reads: the ordered keyword table and
 * the fallback replies. Both are built once and never changed.
 */
module KnowledgeBase {
  import opened Text

  /** One table entry, written as the keywords its raw key lists (the raw
      key, the property name in the source, is these joined by `|`: see
      `RawKey`) and its `topic` label, which matching ignores. The response
      text itself is not modelled: an entry's response is identified by the
      entry's index in the table. */
  datatype Entry = Entry(written: seq<string>, topic: string)

  /** The character the matcher splits a raw key on. */
  const Separator: char := '|'

  /** The entry's raw key: its keywords joined by `|`. */
  function RawKey(e: Entry): string {
    if e.written == [] then [] else Join(e.written, Separator)
  }

  /** The keywords the matcher tries for an entry, left to right: the pieces
      of the raw key between separators, each trimmed. */
  function Keywords(e: Entry): seq<string> {
    TrimAll(Split(RawKey(e), Separator))
  }

  /** Each piece trimmed, in order. */
  function TrimAll(pieces: seq<string>): seq<string> {
    if pieces == [] then [] else [Trim(pieces[0])] + TrimAll(pieces[1..])
  }

  /** `TrimAll` trims piece by piece. */
  lemma {:induction false} TrimAllAt(pieces: seq<string>)
    ensures |TrimAll(pieces)| == |pieces|
    ensures forall i :: 0 <= i < |pieces| ==> TrimAll(pieces)[i] == Trim(pieces[i])
  {
    if pieces != [] {
      TrimAllAt(pieces[1..]);
    }
  }

  /** The configuration invariant the matcher relies on: every keyword of
      every entry is non-empty and already lower case. */
  predicate WellFormed(kb: seq<Entry>) {
    forall j, k | 0 <= j < |kb| && k in Keywords(kb[j]) :: k != [] && IsLowerText(k)
  }

  /** The characters the table's keywords are written with. */
  predicate KeywordChar(c: char) {
    'a' <= c <= 'z' || '0' <= c <= '9' || c == ' ' || c == '-' || c == '_' || c == '?'
  }

  /** A keyword as the table's author writes them: non-empty, made of lower
      case letters, digits, spaces and a little punctuation, and neither
      starting nor ending with a space. */
  predicate Tidy(k: string) {
    k != [] && k[0] != ' ' && k[|k| - 1] != ' '
    && forall i | 0 <= i < |k| :: KeywordChar(k[i])
  }

  /** The matcher recovers exactly the keywords an entry was written with,
      provided each of them is tidy. */
  lemma KeywordsOfTidy(e: Entry)
    requires |e.written| >= 1 && forall k | k in e.written :: Tidy(k)
    ensures Keywords(e) == e.written
  {
    var keywords := e.written;
    forall k | k in keywords ensures Separator !in k {
      assert forall i | 0 <= i < |k| :: k[i] != Separator;
    }
    SplitJoin(keywords, Separator);
    forall k | k in keywords ensures Trim(k) == k {
      assert KeywordChar(k[0]) && KeywordChar(k[|k| - 1]);
      TrimKeepsTrimmed(k);
    }
    TrimAllAt(keywords);
  }

  // The keywords of each entry, as its raw key lists them; the comment gives
  // the line where the key is written.

  /** Line 10. */
  const AuthenticationKeys: seq<string> := ["authentication", "auth", "token", "bearer", "login"]
  /** Line 58. */
  const ClientSecretKeys: seq<string> := ["secret key", "client secret", "get secret", "secret key?"]
  /** Line 72. */
  const TokenExpiryKeys: seq<string> := ["token expired", "token expire", "refresh token", "expires_in"]
  /** Line 96. */
  const ApiCodeKeys: seq<string> := ["api code", "available codes", "payin", "payout", "mobile", "card", "bank"]
  /** Line 115. */
  const MobileMoneyKeys: seq<string> := ["mobile money", "mtn", "airtel", "vodafone", "mpesa"]
  /** Line 158. */
  const InitiatePaymentKeys: seq<string> := ["initiate payment", "start payment", "collect payment", "payment request"]
  /** Line 187. */
  const CompleteRequestKeys: seq<string> := ["complete request", "full example", "example request"]
  /** Line 224. */
  const ResponseFormatKeys: seq<string> := ["response format", "pending", "success", "failed", "status"]
  /** Line 272. */
  const NextActionKeys: seq<string> := ["next action", "payment instruction", "authorize", "authorise"]
  /** Line 294. */
  const ErrorCodeKeys: seq<string> := ["error code", "error codes", "error 10400", "error 400", "failed", "errors"]
  /** Line 325. */
  const WebhookKeys: seq<string> := ["webhook", "callback", "webhook secret", "callback url", "webhook verification"]
  /** Line 374. */
  const ReferenceFieldKeys: seq<string> := ["reference field", "reference requirement", "alphanumeric", "reference validation"]
  /** Line 401. */
  const CustomerNameKeys: seq<string> := ["customer name", "name requirement", "name validation"]
  /** Line 434. */
  const RateLimitKeys: seq<string> := ["rate limit", "limits", "usage", "throttle", "rate-limit"]
  /** Line 455. */
  const CardPaymentKeys: seq<string> := ["card payment", "card local", "card international", "visa", "mastercard"]
  /** Line 492. */
  const BankPayoutKeys: seq<string> := ["bank payout", "bank transfer", "payout bank", "withdraw bank"]
  /** Line 525. */
  const MobilePayoutKeys: seq<string> := ["mobile money payout", "payout mobile", "send money", "withdraw mobile"]
  /** Line 563. */
  const IntegrationKeys: seq<string> := ["integration", "how to integrate", "get started", "setup", "quickstart", "quick start"]
  /** Line 599. */
  const CurrencyKeys: seq<string> := ["currency", "rwf", "ugx", "kes", "currencies"]
  /** Line 626. */
  const CountryKeys: seq<string> := ["countries", "country code", "rwanda", "uganda", "kenya", "nigeria"]
  /** Line 657. */
  const FeeKeys: seq<string> := ["fee", "fees", "transaction fee", "cost", "charge"]
  /** Line 689. */
  const TestingKeys: seq<string> := ["testing", "test", "sandbox", "simulation", "test payment"]
  /** Line 725. */
  const SecurityKeys: seq<string> := ["security", "secure", "best practice", "security tips", "api security"]

  /** The knowledge base, in the order its entries are written, which is the
      order in which the matcher visits them. */
  const Table: seq<Entry> := [
    /*  0 */ Entry(AuthenticationKeys, "authentication"),
    /*  1 */ Entry(ClientSecretKeys, "authentication"),
    /*  2 */ Entry(TokenExpiryKeys, "authentication"),
    /*  3 */ Entry(ApiCodeKeys, "api-codes"),
    /*  4 */ Entry(MobileMoneyKeys, "mobile-money"),
    /*  5 */ Entry(InitiatePaymentKeys, "payments"),
    /*  6 */ Entry(CompleteRequestKeys, "payments"),
    /*  7 */ Entry(ResponseFormatKeys, "responses"),
    /*  8 */ Entry(NextActionKeys, "responses"),
    /*  9 */ Entry(ErrorCodeKeys, "errors"),
    /* 10 */ Entry(WebhookKeys, "webhooks"),
    /* 11 */ Entry(ReferenceFieldKeys, "validation"),
    /* 12 */ Entry(CustomerNameKeys, "validation"),
    /* 13 */ Entry(RateLimitKeys, "rate-limits"),
    /* 14 */ Entry(CardPaymentKeys, "card-payments"),
    /* 15 */ Entry(BankPayoutKeys, "payouts"),
    /* 16 */ Entry(MobilePayoutKeys, "payouts"),
    /* 17 */ Entry(IntegrationKeys, "integration"),
    /* 18 */ Entry(CurrencyKeys, "general"),
    /* 19 */ Entry(CountryKeys, "general"),
    /* 20 */ Entry(FeeKeys, "general"),
    /* 21 */ Entry(TestingKeys, "testing"),
    /* 22 */ Entry(SecurityKeys, "security")
  ]

  // The replies for a message no entry matches (lines 760-764). Each is
  // written as a concatenation of short pieces, which keeps proofs about
  // its characters small; the concatenation is the reply as written.

  /** Line 760. */
  const Designed: string :=
    "I'm designed to " +
    "help with " +
    "DGS-Pay API " +
    "documentation " +
    "only. Could you " +
    "ask a question " +
    "about " +
    "authentication, " +
    "payments, " +
    "webhooks, or " +
    "error handling?"
  /** Line 761. */
  const OnlyApi: string :=
    "I can only " +
    "answer " +
    "questions about " +
    "the DGS-Pay " +
    "API. Try asking " +
    "about mobile " +
    "money " +
    "integration, " +
    "token " +
    "authentication, " +
    "or payment " +
    "endpoints."
  /** Line 762. */
  const Expertise: string :=
    "My expertise is " +
    "limited to " +
    "DGS-Pay payment " +
    "API " +
    "documentation. " +
    "For general " +
    "programming " +
    "questions, I'd " +
    "recommend other " +
    "resources."
  /** Line 763. */
  const HereToHelp: string :=
    "I'm here to " +
    "help with " +
    "DGS-Pay API " +
    "integration. " +
    "Ask me about " +
    "payment " +
    "methods, " +
    "authentication, " +
    "webhooks, or " +
    "troubleshooting!"
  /** Line 764. */
  const CanAssist: string :=
    "I can assist " +
    "with DGS-Pay " +
    "API questions. " +
    "Topics I can " +
    "help with " +
    "include: " +
    "authentication, " +
    "mobile money " +
    "payments, error " +
    "codes, and " +
    "integration " +
    "setup."

  /** `FALLBACK_RESPONSES`, in order. */
  const Fallbacks: seq<string> := [Designed, OnlyApi, Expertise, HereToHelp, CanAssist]

  /** The table has the 23 entries written at lines 10-725 and there are
      five fallback replies, so a fallback index lies in `[0, 5)`. */
  lemma TableSizes()
    ensures |Table| == 23 && |Fallbacks| == 5
  {
  }

  /** Every keyword written in the table is tidy. */
  lemma WrittenTidy(j: nat)
    requires j < |Table|
    ensures |Table[j].written| >= 1 && forall k | k in Table[j].written :: Tidy(k)
  {
    if j < 12 {
      WrittenTidyLow(j);
    } else {
      WrittenTidyHigh(j);
    }
  }

  lemma WrittenTidyLow(j: nat)
    requires j < 12
    ensures |Table[j].written| >= 1 && forall k | k in Table[j].written :: Tidy(k)
  {
    if j == 0 {
      AuthenticationKeysTidy();
    } else if j == 1 {
      ClientSecretKeysTidy();
    } else if j == 2 {
      TokenExpiryKeysTidy();
    } else if j == 3 {
      ApiCodeKeysTidy();
    } else if j == 4 {
      MobileMoneyKeysTidy();
    } else if j == 5 {
      InitiatePaymentKeysTidy();
    } else if j == 6 {
      CompleteRequestKeysTidy();
    } else if j == 7 {
      ResponseFormatKeysTidy();
    } else if j == 8 {
      NextActionKeysTidy();
    } else if j == 9 {
      ErrorCodeKeysTidy();
    } else if j == 10 {
      WebhookKeysTidy();
    } else {
      ReferenceFieldKeysTidy();
    }
  }

  lemma WrittenTidyHigh(j: nat)
    requires 12 <= j < |Table|
    ensures |Table[j].written| >= 1 && forall k | k in Table[j].written :: Tidy(k)
  {
    if j == 12 {
      CustomerNameKeysTidy();
    } else if j == 13 {
      RateLimitKeysTidy();
    } else if j == 14 {
      CardPaymentKeysTidy();
    } else if j == 15 {
      BankPayoutKeysTidy();
    } else if j == 16 {
      MobilePayoutKeysTidy();
    } else if j == 17 {
      IntegrationKeysTidy();
    } else if j == 18 {
      CurrencyKeysTidy();
    } else if j == 19 {
      CountryKeysTidy();
    } else if j == 20 {
      FeeKeysTidy();
    } else if j == 21 {
      TestingKeysTidy();
    } else {
      SecurityKeysTidy();
    }
  }

  // The keywords of each entry are tidy, one entry at a time.
  lemma AuthenticationKeysTidy() ensures forall k | k in AuthenticationKeys :: Tidy(k) {}
  lemma ClientSecretKeysTidy() ensures forall k | k in ClientSecretKeys :: Tidy(k) {}
  lemma TokenExpiryKeysTidy() ensures forall k | k in TokenExpiryKeys :: Tidy(k) {}
  lemma ApiCodeKeysTidy() ensures forall k | k in ApiCodeKeys :: Tidy(k) {}
  lemma MobileMoneyKeysTidy() ensures forall k | k in MobileMoneyKeys :: Tidy(k) {}
  lemma InitiatePaymentKeysTidy() ensures forall k | k in InitiatePaymentKeys :: Tidy(k) {}
  lemma CompleteRequestKeysTidy() ensures forall k | k in CompleteRequestKeys :: Tidy(k) {}
  lemma ResponseFormatKeysTidy() ensures forall k | k in ResponseFormatKeys :: Tidy(k) {}
  lemma NextActionKeysTidy() ensures forall k | k in NextActionKeys :: Tidy(k) {}
  lemma ErrorCodeKeysTidy() ensures forall k | k in ErrorCodeKeys :: Tidy(k) {}
  lemma WebhookKeysTidy() ensures forall k | k in WebhookKeys :: Tidy(k) {}
  lemma ReferenceFieldKeysTidy() ensures forall k | k in ReferenceFieldKeys :: Tidy(k) {}
  lemma CustomerNameKeysTidy() ensures forall k | k in CustomerNameKeys :: Tidy(k) {}
  lemma RateLimitKeysTidy() ensures forall k | k in RateLimitKeys :: Tidy(k) {}
  lemma CardPaymentKeysTidy() ensures forall k | k in CardPaymentKeys :: Tidy(k) {}
  lemma BankPayoutKeysTidy() ensures forall k | k in BankPayoutKeys :: Tidy(k) {}
  lemma MobilePayoutKeysTidy() ensures forall k | k in MobilePayoutKeys :: Tidy(k) {}
  lemma IntegrationKeysTidy() ensures forall k | k in IntegrationKeys :: Tidy(k) {}
  lemma CurrencyKeysTidy() ensures forall k | k in CurrencyKeys :: Tidy(k) {}
  lemma CountryKeysTidy() ensures forall k | k in CountryKeys :: Tidy(k) {}
  lemma FeeKeysTidy() ensures forall k | k in FeeKeys :: Tidy(k) {}
  lemma TestingKeysTidy() ensures forall k | k in TestingKeys :: Tidy(k) {}
  lemma SecurityKeysTidy() ensures forall k | k in SecurityKeys :: Tidy(k) {}

  /** Entry `j` of the table offers exactly the keywords written for it. */
  lemma TableKeywords(j: nat)
    requires j < |Table|
    ensures Keywords(Table[j]) == Table[j].written
  {
    WrittenTidy(j);
    KeywordsOfTidy(Table[j]);
  }

  /** The table meets the configuration invariant. */
  lemma TableWellFormed()
    ensures WellFormed(Table)
  {
    forall j | 0 <= j < |Table| ensures forall k | k in Keywords(Table[j]) :: k != [] && IsLowerText(k) {
      TableKeywords(j);
      WrittenTidy(j);
    }
  }
}
