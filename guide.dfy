/** The "heritage guide": a fixed, ordered keyword table answered by the
    first key that occurs in the lower-cased question (app.py:41-55). */
module Guide {

  /** One row of the knowledge table: a keyword and the canned text for it. */
  datatype Entry = Entry(key: string, text: string)

  // ---------------------------------------------------------------------
  // ASCII case folding (the model of Python's str.lower on ASCII)
  // ---------------------------------------------------------------------

  predicate IsUpper(c: char) { 'A' <= c <= 'Z' }

  function ToLowerChar(c: char): (r: char)
    ensures !IsUpper(r)
    ensures IsUpper(c) ==> r as int == c as int + 32
    ensures !IsUpper(c) ==> r == c
  {
    if IsUpper(c) then (c as int + 32) as char else c
  }

  /** `s.lower()` restricted to ASCII letters. */
  function Lower(s: string): (r: string)
    ensures |r| == |s|
    ensures forall i :: 0 <= i < |s| ==> r[i] == ToLowerChar(s[i])
  {
    seq(|s|, i requires 0 <= i < |s| => ToLowerChar(s[i]))
  }

  /** Lower-casing leaves no upper-case letter behind, so it is idempotent. */
  lemma LowerIdempotent(s: string)
    ensures forall i :: 0 <= i < |s| ==> !IsUpper(Lower(s)[i])
    ensures Lower(Lower(s)) == Lower(s)
  {
  }

  /** A string without upper-case letters is its own lower-case form. */
  lemma LowerOfLowercase(s: string)
    requires forall i :: 0 <= i < |s| ==> !IsUpper(s[i])
    ensures Lower(s) == s
  {
  }

  /** Two strings that agree letter by letter once case is folded. */
  predicate EqualIgnoringCase(a: string, b: string)
  {
    |a| == |b| && forall i :: 0 <= i < |a| ==> ToLowerChar(a[i]) == ToLowerChar(b[i])
  }

  // ---------------------------------------------------------------------
  // Substring test (the model of Python's `key in query` on strings)
  // ---------------------------------------------------------------------

  /** `k` occurs in `s` starting at index `i`. */
  predicate OccursAt(s: string, k: string, i: nat)
  {
    i + |k| <= |s| && s[i..i + |k|] == k
  }

  /** `k in s`: tried at each start position from the left. It holds exactly
      when `k` occurs at some index of `s`. */
  predicate Contains(s: string, k: string)
    ensures Contains(s, k) <==> exists i: nat :: OccursAt(s, k, i)
    decreases |s|
  {
    if |s| < |k| then false
    else if s[..|k|] == k then assert OccursAt(s, k, 0); true
    else ShiftOccurrence(s, k); 0 < |s| && Contains(s[1..], k)
  }

  /** Past a non-matching first position, `k` occurs in `s` exactly when it
      occurs in `s[1..]`. */
  lemma ShiftOccurrence(s: string, k: string)
    requires |k| <= |s| && s[..|k|] != k
    ensures (exists i: nat :: OccursAt(s, k, i))
        <==> 0 < |s| && exists i: nat :: OccursAt(s[1..], k, i)
  {
    if 0 < |s| {
      if exists i: nat :: OccursAt(s, k, i) {
        var i: nat :| OccursAt(s, k, i);
        assert i > 0;
        assert s[1..][i - 1..i - 1 + |k|] == s[i..i + |k|];
        assert OccursAt(s[1..], k, i - 1);
      }
      if exists j: nat :: OccursAt(s[1..], k, j) {
        var j: nat :| OccursAt(s[1..], k, j);
        assert s[j + 1..j + 1 + |k|] == s[1..][j..j + |k|];
        assert OccursAt(s, k, j + 1);
      }
    }
  }

  /** A key with a character the query lacks cannot occur in it. */
  lemma MissingCharNotContained(s: string, k: string, c: char)
    requires c in k && c !in s
    ensures !Contains(s, k)
  {
  }

  // ---------------------------------------------------------------------
  // The knowledge table and the lookup
  // ---------------------------------------------------------------------

  const HistoryText: string := "Telugu civilization dates back to at least 400 BCE with the Andhra Satavahanas. The language has a rich literary tradition spanning over 1000 years."
  const TemplesText: string := "Famous Telugu temples include:\n- Tirumala Venkateswara (Tirupati)\n- Srisailam Mallikarjuna\n- Bhadrachalam Sita Ramachandra\n- Lepakshi Veerabhadra"
  const CultureText: string := "Telugu culture is known for:\n- Kuchipudi dance\n- Telugu cinema (Tollywood)\n- Ugadi festival\n- Bonalu celebrations\n- Bathukamma floral festival"
  const LanguageText: string := "Telugu is a Dravidian language with 56 unique letters. It's the 3rd most spoken language in India with classical language status."
  const DefaultText: string := "I'm your Telugu heritage guide. Ask me about:\n- History\n- Temples\n- Festivals\n- Traditional arts\n- Famous personalities"

  /** The dictionary `telugu_knowledge`, in its insertion (iteration) order. */
  const Knowledge: seq<Entry> := [
    Entry("history", HistoryText),
    Entry("temples", TemplesText),
    Entry("culture", CultureText),
    Entry("language", LanguageText),
    Entry("default", DefaultText)
  ]

  /** The five texts of the table. */
  function Texts(table: seq<Entry>): (r: seq<string>)
    ensures |r| == |table|
    ensures forall i :: 0 <= i < |table| ==> r[i] == table[i].text
  {
    if table == [] then [] else [table[0].text] + Texts(table[1..])
  }

  /** Walk `table` in order and answer with the text of the first key that
      occurs in `q`; `fallback` when none does. */
  function Respond(table: seq<Entry>, q: string, fallback: string): (r: string)
    ensures r in Texts(table) + [fallback]
  {
    if table == [] then fallback
    else if Contains(q, table[0].key) then table[0].text
    else Respond(table[1..], q, fallback)
  }

  /** The answer of `generate_ai_response` to `query`: always one of the
      five fixed texts. */
  function Answer(query: string): (r: string)
    ensures r in {HistoryText, TemplesText, CultureText, LanguageText, DefaultText}
  {
    assert Texts(Knowledge) + [DefaultText]
      == [HistoryText, TemplesText, CultureText, LanguageText, DefaultText, DefaultText];
    Respond(Knowledge, Lower(query), DefaultText)
  }

  /** The table's keys in iteration order, and its five distinct texts. */
  lemma KnowledgeOrder()
    ensures |Knowledge| == 5
    ensures && Knowledge[0].key == "history" && Knowledge[1].key == "temples"
            && Knowledge[2].key == "culture" && Knowledge[3].key == "language"
            && Knowledge[4].key == "default"
    ensures Knowledge[4].text == DefaultText
    ensures forall i, j :: 0 <= i < j < |Knowledge| ==> Knowledge[i].text != Knowledge[j].text
  {
  }

  /** The loop of `generate_ai_response`: lower-case the query, try each key
      in table order, return on the first hit, else the default text. */
  method GenerateAiResponse(query: string) returns (r: string)
    ensures r == Answer(query)
  {
    var q := Lower(query);
    var i := 0;
    while i < |Knowledge|
      invariant 0 <= i <= |Knowledge|
      invariant Respond(Knowledge[i..], q, DefaultText) == Answer(query)
    {
      if Contains(q, Knowledge[i].key) {
        return Knowledge[i].text;
      }
      assert Knowledge[i..][1..] == Knowledge[i + 1..];
      i := i + 1;
    }
    r := DefaultText;
  }

  // ---------------------------------------------------------------------
  // Properties of the lookup over any ordered table
  // ---------------------------------------------------------------------

  /** First match wins: the text of entry `i` is returned when its key occurs
      and no earlier key does. */
  lemma {:induction false} RespondFirstMatch(table: seq<Entry>, q: string, fallback: string, i: nat)
    requires i < |table|
    requires Contains(q, table[i].key)
    requires forall j :: 0 <= j < i ==> !Contains(q, table[j].key)
    ensures Respond(table, q, fallback) == table[i].text
  {
    if i > 0 {
      assert !Contains(q, table[0].key);
      RespondFirstMatch(table[1..], q, fallback, i - 1);
    }
  }

  /** With no key occurring, the fallback is returned. */
  lemma {:induction false} RespondNoMatch(table: seq<Entry>, q: string, fallback: string)
    requires forall j :: 0 <= j < |table| ==> !Contains(q, table[j].key)
    ensures Respond(table, q, fallback) == fallback
  {
    if table != [] {
      RespondNoMatch(table[1..], q, fallback);
    }
  }

  /** Entry `i` holds the first key of `table` that occurs in `q`. */
  predicate FirstHit(table: seq<Entry>, q: string, i: nat)
  {
    i < |table| && Contains(q, table[i].key)
    && forall j :: 0 <= j < i ==> !Contains(q, table[j].key)
  }

  /** No key of `table` occurs in `q`. */
  predicate NoHit(table: seq<Entry>, q: string)
  {
    forall j :: 0 <= j < |table| ==> !Contains(q, table[j].key)
  }

  /** Prepending an entry whose key does not occur shifts the first hit by one. */
  lemma FirstHitShift(table: seq<Entry>, q: string, i: nat)
    requires table != [] && !Contains(q, table[0].key)
    requires FirstHit(table[1..], q, i)
    ensures FirstHit(table, q, i + 1)
  {
    forall j | 0 <= j < i + 1 ensures !Contains(q, table[j].key) {
      if j > 0 { assert table[j] == table[1..][j - 1]; }
    }
  }

  /** Prepending an entry whose key does not occur keeps "no hit". */
  lemma NoHitShift(table: seq<Entry>, q: string)
    requires table != [] && !Contains(q, table[0].key)
    requires NoHit(table[1..], q)
    ensures NoHit(table, q)
  {
    forall j | 0 <= j < |table| ensures !Contains(q, table[j].key) {
      if j > 0 { assert table[j] == table[1..][j - 1]; }
    }
  }

  /** Whatever is returned either is the first hit or there is no hit. */
  lemma {:induction false} RespondCases(table: seq<Entry>, q: string, fallback: string)
    ensures NoHit(table, q)
            || exists i: nat :: FirstHit(table, q, i) && Respond(table, q, fallback) == table[i].text
  {
    if table != [] {
      if Contains(q, table[0].key) {
        assert FirstHit(table, q, 0);
      } else {
        RespondCases(table[1..], q, fallback);
        if NoHit(table[1..], q) {
          NoHitShift(table, q);
        } else {
          var i: nat :| FirstHit(table[1..], q, i) && Respond(table[1..], q, fallback) == table[1..][i].text;
          FirstHitShift(table, q, i);
          assert Respond(table, q, fallback) == table[i + 1].text;
        }
      }
    }
  }

  // ---------------------------------------------------------------------
  // Properties of generate_ai_response itself
  // ---------------------------------------------------------------------

  /** Queries equal up to ASCII case get the same reply. */
  lemma AnswerIgnoresCase(a: string, b: string)
    requires EqualIgnoringCase(a, b)
    ensures Answer(a) == Answer(b)
  {
    assert Lower(a) == Lower(b);
  }

  /** Only the lower-cased query matters: asking in lower case changes nothing. */
  lemma AnswerOfLower(query: string)
    ensures Answer(Lower(query)) == Answer(query)
  {
    LowerIdempotent(query);
  }

  /** For each of the first four keys: its text is the reply exactly when the
      key occurs in the lowered query and no earlier key does. */
  lemma AnswerIsKeyText(query: string, i: nat)
    requires i < 4
    ensures Answer(query) == Knowledge[i].text
        <==> Contains(Lower(query), Knowledge[i].key)
             && forall j :: 0 <= j < i ==> !Contains(Lower(query), Knowledge[j].key)
  {
    var q := Lower(query);
    var texts := [HistoryText, TemplesText, CultureText, LanguageText, DefaultText];
    assert forall m :: 0 <= m < 5 ==> Knowledge[m].text == texts[m];
    RespondCases(Knowledge, q, DefaultText);
    if Contains(q, Knowledge[i].key) && forall j :: 0 <= j < i ==> !Contains(q, Knowledge[j].key) {
      RespondFirstMatch(Knowledge, q, DefaultText, i);
    } else if forall j :: 0 <= j < |Knowledge| ==> !Contains(q, Knowledge[j].key) {
      RespondNoMatch(Knowledge, q, DefaultText);
    }
  }

  /** The default text is the reply exactly when none of history, temples,
      culture and language occurs (a query containing "default" selects
      the same text through its own key). */
  lemma AnswerIsDefault(query: string)
    ensures Answer(query) == DefaultText
        <==> forall j :: 0 <= j < 4 ==> !Contains(Lower(query), Knowledge[j].key)
  {
    var q := Lower(query);
    RespondCases(Knowledge, q, DefaultText);
    if forall j :: 0 <= j < 4 ==> !Contains(q, Knowledge[j].key) {
      if Contains(q, Knowledge[4].key) {
        RespondFirstMatch(Knowledge, q, DefaultText, 4);
      } else {
        RespondNoMatch(Knowledge, q, DefaultText);
      }
    }
  }

  /** With no key at all in the lowered query the default text is returned. */
  lemma AnswerFallback(query: string)
    requires forall j :: 0 <= j < |Knowledge| ==> !Contains(Lower(query), Knowledge[j].key)
    ensures Answer(query) == DefaultText
  {
    RespondNoMatch(Knowledge, Lower(query), DefaultText);
  }

  /** A question naming both history and temples gets the history text. */
  lemma HistoryBeforeTemples()
    ensures Answer("History of TEMPLES") == HistoryText
  {
    var q := Lower("History of TEMPLES");
    assert q == "history of temples";
    assert OccursAt(q, "history", 0);
    assert Contains(q, "history");
    RespondFirstMatch(Knowledge, q, DefaultText, 0);
  }

  /** The lowered form of the example question below. */
  lemma LowerTempleQuestion(query: string)
    requires query == "Tell me about the temple"
    ensures Lower(query) == "tell me about the temple"
  {
  }

  /** The keys that do and do not occur in that question: "temple" does,
      and each table key lacks some letter of the question. */
  lemma TempleQuestionKeys(q: string)
    requires q == "tell me about the temple"
    ensures OccursAt(q, "temple", 18)
    ensures 'y' !in q && 's' !in q && 'c' !in q && 'n' !in q && 'd' !in q
  {
  }

  /** No table key occurs in a question lacking the letters y, s, c, n and d. */
  lemma NoKeyWithout(q: string)
    requires 'y' !in q && 's' !in q && 'c' !in q && 'n' !in q && 'd' !in q
    ensures forall j :: 0 <= j < |Knowledge| ==> !Contains(q, Knowledge[j].key)
  {
    KnowledgeOrder();
    MissingCharNotContained(q, Knowledge[0].key, 'y');
    MissingCharNotContained(q, Knowledge[1].key, 's');
    MissingCharNotContained(q, Knowledge[2].key, 'c');
    MissingCharNotContained(q, Knowledge[3].key, 'n');
    MissingCharNotContained(q, Knowledge[4].key, 'd');
  }

  /** Only the whole key matches: a question that contains "temple" but not
      "temples" gets the default text. */
  lemma SingularTempleGetsDefault(query: string)
    requires query == "Tell me about the temple"
    ensures Contains(Lower(query), "temple")
    ensures Answer(query) == DefaultText
  {
    var q := Lower(query);
    LowerTempleQuestion(query);
    TempleQuestionKeys(q);
    NoKeyWithout(q);
    RespondNoMatch(Knowledge, q, DefaultText);
  }
}
