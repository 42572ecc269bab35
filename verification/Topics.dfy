/** Topics: the hierarchy a taxonomy stands for, and the normal form of a topic list. */
module Topics {
  import opened Text

  const ROOT_TOPIC := "openagent/v1"
  const DEFAULT_TOPIC := "openagent/v1/general"

  // ---------------------------------------------------------------- taxonomy

  /** The taxonomy with its outer dots and then its outer blanks removed. */
  function Core(taxonomy: string): string {
    TrimSpace(Trim(taxonomy, IsDot))
  }

  predicate IsDot(c: char) {
    c == '.'
  }

  /** The trimmed non-blank parts of a taxonomy. */
  function Parts(taxonomy: string): seq<string> {
    KeepTrimmed(Split(Core(taxonomy), '.'))
  }

  function TopicOf(parts: seq<string>): (t: string)
    ensures |t| >= |ROOT_TOPIC| + |parts|
  {
    if parts == [] then ROOT_TOPIC else TopicOf(parts[..|parts| - 1]) + "/" + parts[|parts| - 1]
  }

  /** One topic for each nonempty prefix of the parts, shortest first. */
  function Hierarchy(parts: seq<string>): (ts: seq<string>)
    ensures |ts| == |parts| && forall i :: 0 <= i < |ts| ==> ts[i] == TopicOf(parts[..i + 1])
  {
    seq(|parts|, i requires 0 <= i < |parts| => TopicOf(parts[..i + 1]))
  }

  function TaxonomyTopics(taxonomy: string): (ts: seq<string>)
    ensures ts != []
  {
    if Parts(taxonomy) == [] then [DEFAULT_TOPIC] else Hierarchy(Parts(taxonomy))
  }

  /** `TopicsFromTaxonomy`, whose loop grows the prefix part by part. */
  method TopicsFromTaxonomy(taxonomy: string) returns (topics: seq<string>)
    ensures topics == TaxonomyTopics(taxonomy)
  {
    var core := Core(taxonomy);
    if core == "" {
      NothingKept(Split(core, '.'));
      return [DEFAULT_TOPIC];
    }
    var parts := Split(core, '.');
    topics := [];
    var prefix := ROOT_TOPIC;
    for i := 0 to |parts|
      invariant topics == Hierarchy(KeepTrimmed(parts[..i]))
      invariant prefix == TopicOf(KeepTrimmed(parts[..i]))
    {
      var part := TrimSpace(parts[i]);
      KeepTrimmedStep(parts, i);
      if part == "" {
        continue;
      }
      HierarchyGrows(KeepTrimmed(parts[..i]), part);
      prefix := prefix + ("/" + part);
      topics := topics + [prefix];
    }
    assert parts[..|parts|] == parts;
    if topics == [] {
      return [DEFAULT_TOPIC];
    }
  }

  lemma HierarchyGrows(parts: seq<string>, part: string)
    ensures TopicOf(parts + [part]) == TopicOf(parts) + ("/" + part)
    ensures Hierarchy(parts + [part]) == Hierarchy(parts) + [TopicOf(parts) + ("/" + part)]
  {
    var all := parts + [part];
    assert all[..|parts|] == parts && all[..|parts| + 1] == all;
    assert TopicOf(parts) + "/" + part == TopicOf(parts) + ("/" + part);
    forall i | 0 <= i < |parts| ensures Hierarchy(all)[i] == Hierarchy(parts)[i] {
      assert all[..i + 1] == parts[..i + 1];
    }
  }

  /** A topic is the root and its parts, with slashes between. */
  lemma {:induction false} TopicJoined(parts: seq<string>)
    ensures TopicOf(parts) == if parts == [] then "openagent/v1" else "openagent/v1" + "/" + Join(parts, '/')
  {
    if |parts| > 1 {
      TopicJoined(parts[..|parts| - 1]);
    } else if |parts| == 1 {
      assert parts[..0] == [];
    }
  }

  /** Parts with dots between them are those parts. */
  lemma PartsOfJoined(parts: seq<string>)
    requires parts != [] && AllTrimmed(parts) && forall i :: 0 <= i < |parts| ==> '.' !in parts[i]
    ensures Parts(Join(parts, '.')) == parts
    ensures TaxonomyTopics(Join(parts, '.')) == Hierarchy(parts)
  {
    CoreOfJoined(parts);
    SplitJoin(parts, '.');
    KeepTrimmedFixed(parts);
  }

  lemma CoreOfJoined(parts: seq<string>)
    requires parts != [] && AllTrimmed(parts) && forall i :: 0 <= i < |parts| ==> '.' !in parts[i]
    ensures Core(Join(parts, '.')) == Join(parts, '.')
  {
    var t, first, last := Join(parts, '.'), parts[0], parts[|parts| - 1];
    JoinEnds(parts);
    assert Trimmed(first) && Trimmed(last) && first != "" && last != "";
    assert first[0] in first && last[|last| - 1] in last;
    TrimFixed(t, IsDot);
    TrimFixed(t, IsSpace);
  }

  lemma {:induction false} JoinEnds(parts: seq<string>)
    requires parts != [] && AllTrimmed(parts)
    ensures var t, first, last := Join(parts, '.'), parts[0], parts[|parts| - 1];
            t != "" && t[0] == first[0] && t[|t| - 1] == last[|last| - 1]
  {
    if |parts| > 1 {
      JoinEnds(parts[..|parts| - 1]);
    }
  }

  /** A taxonomy of nothing but dots and blanks has the default topic only. */
  lemma NoPartsNoHierarchy(t: string)
    requires forall i :: 0 <= i < |t| ==> t[i] == '.' || t[i] == ' '
    ensures TaxonomyTopics(t) == ["openagent/v1/general"]
  {
    var pieces := Split(Core(t), '.');
    forall i | 0 <= i < |pieces| ensures TrimSpace(pieces[i]) == "" {
      PieceBlank(t, i);
    }
    NothingKept(pieces);
  }

  lemma {:induction false} NothingKept(pieces: seq<string>)
    requires forall i :: 0 <= i < |pieces| ==> TrimSpace(pieces[i]) == ""
    ensures KeepTrimmed(pieces) == []
  {
    if pieces != [] {
      NothingKept(pieces[..|pieces| - 1]);
    }
  }

  lemma PieceBlank(t: string, i: nat)
    requires forall i :: 0 <= i < |t| ==> t[i] == '.' || t[i] == ' '
    requires i < |Split(Core(t), '.')|
    ensures TrimSpace(Split(Core(t), '.')[i]) == ""
  {
    var piece := Split(Core(t), '.')[i];
    CoreChars(t);
    SplitPieces(Core(t), '.');
    PieceChars(Core(t), '.', i);
    var from, to := TrimExact(piece, IsSpace);
    forall j | 0 <= j < |piece| ensures piece[j] == ' ' {
      assert piece[j] in piece && piece[j] in Core(t) && piece[j] in t;
      var i :| 0 <= i < |t| && t[i] == piece[j];
    }
  }

  lemma CoreChars(t: string)
    ensures forall c :: c in Core(t) ==> c in t
  {
    var a, b := TrimExact(t, IsDot);
    var u := Trim(t, IsDot);
    var c, d := TrimExact(u, IsSpace);
    assert u == t[a..b] && Core(t) == u[c..d];
  }

  lemma {:induction false} PieceChars(s: string, sep: char, i: nat)
    requires i < |Split(s, sep)|
    ensures forall c :: c in Split(s, sep)[i] ==> c in s
    decreases |s|
  {
    if s != "" {
      var rest := Split(s[1..], sep);
      if s[0] == sep {
        if i > 0 {
          PieceChars(s[1..], sep, i - 1);
        }
      } else {
        PieceChars(s[1..], sep, i);
      }
      assert forall c :: c in s[1..] ==> c in s;
    }
  }

  /** Each topic of the hierarchy extends the one before it by a slash and a part. */
  lemma HierarchyChain(parts: seq<string>, i: nat)
    requires i + 1 < |parts|
    ensures Hierarchy(parts)[i + 1] == Hierarchy(parts)[i] + "/" + parts[i + 1]
  {
    assert parts[..i + 2][..i + 1] == parts[..i + 1];
  }

  lemma {:induction false} TopicTrimmed(parts: seq<string>)
    requires AllTrimmed(parts)
    ensures Trimmed(TopicOf(parts)) && TopicOf(parts) != "" && TopicOf(parts)[0] == 'o'
  {
    if parts != [] {
      var front, last := parts[..|parts| - 1], parts[|parts| - 1];
      TopicTrimmed(front);
      var t := TopicOf(parts);
      assert t[0] == TopicOf(front)[0] && t[|t| - 1] == last[|last| - 1];
    }
  }

  predicate NoSlash(parts: seq<string>) {
    forall i :: 0 <= i < |parts| ==> '/' !in parts[i]
  }

  /** Topics of slash-free parts name their parts. */
  lemma {:induction false} TopicInjective(a: seq<string>, b: seq<string>)
    requires NoSlash(a) && NoSlash(b)
    requires TopicOf(a) == TopicOf(b)
    ensures a == b
    decreases |a|
  {
    if a != [] && b != [] {
      var fa, la, fb, lb := a[..|a| - 1], a[|a| - 1], b[..|b| - 1], b[|b| - 1];
      assert a == fa + [la] && b == fb + [lb];
      LastSeparatorUnique(TopicOf(fa), la, TopicOf(fb), lb, '/');
      TopicInjective(fa, fb);
    } else if a != [] {
      NotRoot(a);
    } else if b != [] {
      NotRoot(b);
    }
  }

  lemma NotRoot(parts: seq<string>)
    requires parts != []
    ensures TopicOf(parts) != ROOT_TOPIC
  {}

  /** How many leading parts two taxonomies share. */
  function CommonParts(a: seq<string>, b: seq<string>): (n: nat)
    ensures n <= |a| && n <= |b| && a[..n] == b[..n]
    ensures n < |a| && n < |b| ==> a[n] != b[n]
  {
    if a == [] || b == [] || a[0] != b[0] then 0
    else
      var n := CommonParts(a[1..], b[1..]);
      assert a[..n + 1] == [a[0]] + a[1..][..n] && b[..n + 1] == [b[0]] + b[1..][..n];
      n + 1
  }

  lemma SharedPrefix(a: seq<string>, b: seq<string>, i: nat, j: nat)
    requires i < |a| && j < |b| && NoSlash(a) && NoSlash(b)
    ensures Hierarchy(a)[i] == Hierarchy(b)[j] <==> i == j && i < CommonParts(a, b)
  {
    var n := CommonParts(a, b);
    if Hierarchy(a)[i] == Hierarchy(b)[j] {
      TopicInjective(a[..i + 1], b[..j + 1]);
      assert |a[..i + 1]| == |b[..j + 1]|;
      forall k | 0 <= k <= i ensures a[k] == b[k] {
        assert a[k] == a[..i + 1][k] && b[k] == b[..i + 1][k];
      }
    }
    if i == j && i < n {
      assert a[..i + 1] == a[..n][..i + 1] && b[..i + 1] == b[..n][..i + 1];
    }
  }

  /** Two nodes meet on exactly the topics of their longest common run of parts. */
  lemma SharedTopics(t1: string, t2: string, topic: string)
    requires Parts(t1) != [] && Parts(t2) != [] && NoSlash(Parts(t1)) && NoSlash(Parts(t2))
    ensures topic in TaxonomyTopics(t1) && topic in TaxonomyTopics(t2)
            <==> topic in TaxonomyTopics(t1)[..CommonParts(Parts(t1), Parts(t2))]
  {
    var a, b := Parts(t1), Parts(t2);
    var n := CommonParts(a, b);
    assert TaxonomyTopics(t1) == Hierarchy(a) && TaxonomyTopics(t2) == Hierarchy(b);
    if topic in Hierarchy(a) && topic in Hierarchy(b) {
      MeetAbove(a, b, topic);
    }
    if topic in Hierarchy(a)[..n] {
      AboveIsShared(a, b, topic);
    }
  }

  lemma MeetAbove(a: seq<string>, b: seq<string>, topic: string)
    requires NoSlash(a) && NoSlash(b) && topic in Hierarchy(a) && topic in Hierarchy(b)
    ensures topic in Hierarchy(a)[..CommonParts(a, b)]
  {
    var x, y := Hierarchy(a), Hierarchy(b);
    var i, j :| 0 <= i < |x| && 0 <= j < |y| && x[i] == topic && y[j] == topic;
    SharedPrefix(a, b, i, j);
    assert x[..CommonParts(a, b)][i] == topic;
  }

  lemma AboveIsShared(a: seq<string>, b: seq<string>, topic: string)
    requires NoSlash(a) && NoSlash(b) && topic in Hierarchy(a)[..CommonParts(a, b)]
    ensures topic in Hierarchy(a) && topic in Hierarchy(b)
  {
    var n := CommonParts(a, b);
    var i :| 0 <= i < n && Hierarchy(a)[..n][i] == topic;
    SharedPrefix(a, b, i, i);
    assert Hierarchy(a)[i] == topic && Hierarchy(b)[i] == topic;
  }

  // ---------------------------------------------------------------- first occurrences

  /** The entries of `ts` without the repetitions of earlier ones. */
  function FirstOccurrences(ts: seq<string>): (r: seq<string>)
    ensures forall t :: t in r <==> t in ts
    ensures NoRepeats(r)
  {
    if ts == [] then []
    else
      var front, last := ts[..|ts| - 1], ts[|ts| - 1];
      assert ts == front + [last];
      FirstOccurrences(front) + if last in front then [] else [last]
  }

  predicate NoRepeats(ts: seq<string>) {
    forall i, j :: 0 <= i < j < |ts| ==> ts[i] != ts[j]
  }

  lemma {:induction false} NoRepeatsFixed(ts: seq<string>)
    requires NoRepeats(ts)
    ensures FirstOccurrences(ts) == ts
  {
    if ts != [] {
      var front := ts[..|ts| - 1];
      assert ts == front + [ts[|ts| - 1]];
      NoRepeatsFixed(front);
    }
  }

  lemma FirstOccurrencesStep(ts: seq<string>, t: string)
    ensures FirstOccurrences(ts + [t]) == if t in ts then FirstOccurrences(ts) else FirstOccurrences(ts) + [t]
  {}

  /** `uniqueStrings`: first occurrences of the nonempty entries. */
  method UniqueStrings(input: seq<string>) returns (out: seq<string>)
    ensures out == FirstOccurrences(NonEmpty(input))
  {
    var seen: set<string> := {};
    out := [];
    for i := 0 to |input|
      invariant out == FirstOccurrences(NonEmpty(input[..i]))
      invariant seen == set t | t in out
    {
      var item := input[i];
      assert input[..i + 1][..i] == input[..i];
      if item == "" {
        continue;
      }
      FirstOccurrencesStep(NonEmpty(input[..i]), item);
      if item in seen {
        continue;
      }
      seen := seen + {item};
      out := out + [item];
    }
    assert input[..|input|] == input;
  }

  function NonEmpty(ts: seq<string>): (r: seq<string>)
    ensures forall t :: t in r <==> t in ts && t != ""
  {
    if ts == [] then []
    else
      var front, last := ts[..|ts| - 1], ts[|ts| - 1];
      assert ts == front + [last];
      if last == "" then NonEmpty(front) else NonEmpty(front) + [last]
  }

  lemma {:induction false} NonEmptyFixed(ts: seq<string>)
    requires forall i :: 0 <= i < |ts| ==> ts[i] != ""
    ensures NonEmpty(ts) == ts
  {
    if ts != [] {
      assert ts == ts[..|ts| - 1] + [ts[|ts| - 1]];
      NonEmptyFixed(ts[..|ts| - 1]);
    }
  }

  // ---------------------------------------------------------------- normal form

  function FirstN(ts: seq<string>, limit: int): seq<string> {
    if 0 < limit < |ts| then ts[..limit] else ts
  }

  /** The first `limit` distinct non-blank topics, trimmed; the default topic when there is none. */
  function NormalTopics(topics: seq<string>, taxonomy: string, limit: int): seq<string> {
    var given := if topics == [] then TaxonomyTopics(taxonomy) else topics;
    var kept := FirstN(FirstOccurrences(KeepTrimmed(given)), limit);
    if kept == [] then [DEFAULT_TOPIC] else kept
  }

  /** The loop of `normalizeTopics`, which stops as soon as the limit is reached. */
  method FirstDistinct(given: seq<string>, limit: int) returns (out: seq<string>)
    ensures out == FirstN(FirstOccurrences(KeepTrimmed(given)), limit)
  {
    out := [];
    var seen: set<string> := {};
    var i := 0;
    while i < |given|
      invariant 0 <= i <= |given|
      invariant out == FirstOccurrences(KeepTrimmed(given[..i]))
      invariant forall t :: t in seen <==> t in out
      invariant limit > 0 && i < |given| ==> |out| < limit
      invariant limit > 0 ==> |out| <= limit
    {
      var topic := TrimSpace(given[i]);
      KeepTrimmedStep(given, i);
      FirstOccurrencesStep(KeepTrimmed(given[..i]), topic);
      i := i + 1;
      if topic == "" {
        continue;
      }
      if topic in seen {
        continue;
      }
      seen := seen + {topic};
      out := out + [topic];
      if limit > 0 && |out| >= limit {
        break;
      }
    }
    StoppedEarly(given, i, limit);
  }

  /** `normalizeTopics`. */
  method NormalizeTopics(topics: seq<string>, taxonomy: string, limit: int) returns (out: seq<string>)
    ensures out == NormalTopics(topics, taxonomy, limit)
  {
    var given := topics;
    if topics == [] {
      given := TopicsFromTaxonomy(taxonomy);
    }
    out := FirstDistinct(given, limit);
    if out == [] {
      return [DEFAULT_TOPIC];
    }
  }

  /** What the loop has when it stops at index `i` is the normal form's beginning. */
  lemma StoppedEarly(given: seq<string>, i: nat, limit: int)
    requires i <= |given|
    requires var out := FirstOccurrences(KeepTrimmed(given[..i]));
             (limit > 0 ==> |out| <= limit) && (i < |given| ==> limit > 0 && |out| == limit)
    ensures FirstOccurrences(KeepTrimmed(given[..i])) == FirstN(FirstOccurrences(KeepTrimmed(given)), limit)
  {
    if i == |given| {
      assert given[..i] == given;
    } else {
      CollectedIsPrefix(given, i);
      TakePrefix(FirstOccurrences(KeepTrimmed(given[..i])), FirstOccurrences(KeepTrimmed(given)), limit);
    }
  }

  lemma TakePrefix(out: seq<string>, all: seq<string>, limit: int)
    requires out <= all && |out| == limit && limit > 0
    ensures FirstN(all, limit) == out
  {}

  /** Going on never disturbs what the loop has collected. */
  lemma {:induction false} CollectedIsPrefix(given: seq<string>, i: nat)
    requires i <= |given|
    ensures FirstOccurrences(KeepTrimmed(given[..i])) <= FirstOccurrences(KeepTrimmed(given))
    decreases |given| - i
  {
    if i == |given| {
      assert given[..i] == given;
    } else {
      CollectedIsPrefix(given, i + 1);
      KeepTrimmedStep(given, i);
      FirstOccurrencesStep(KeepTrimmed(given[..i]), TrimSpace(given[i]));
    }
  }

  /** Blank topics count for nothing: a list of them gives the default topic. */
  lemma BlankTopicsDefault(topics: seq<string>, taxonomy: string, limit: int)
    requires topics != [] && forall i :: 0 <= i < |topics| ==> TrimSpace(topics[i]) == ""
    ensures NormalTopics(topics, taxonomy, limit) == ["openagent/v1/general"]
  {
    NothingKept(topics);
  }

  ghost predicate Normal(ts: seq<string>) {
    ts != [] && NoRepeats(ts) && AllTrimmed(ts)
  }

  lemma NormalIsFixed(ts: seq<string>, taxonomy: string, limit: int)
    requires Normal(ts) && (limit > 0 ==> |ts| <= limit)
    ensures NormalTopics(ts, taxonomy, limit) == ts
    ensures FirstOccurrences(NonEmpty(ts)) == ts
    ensures KeepTrimmed(ts) == ts
  {
    KeepTrimmedFixed(ts);
    NoRepeatsFixed(ts);
    NonEmptyFixed(ts);
  }

  lemma DefaultTrimmed()
    ensures AllTrimmed([DEFAULT_TOPIC])
  {}

  lemma OccurrencesTrimmed(ts: seq<string>)
    requires AllTrimmed(ts)
    ensures AllTrimmed(FirstOccurrences(ts))
  {}

  /** A normal list has no repetition and no blank, and normalising it again, deduplicating it for
      publication or trimming it for the signature changes nothing; it respects the policy's limit. */
  lemma NormalFormFixed(topics: seq<string>, taxonomy: string, limit: int, again: string)
    ensures var ts := NormalTopics(topics, taxonomy, limit);
            && Normal(ts) && (limit > 0 ==> |ts| <= limit)
            && NormalTopics(ts, again, limit) == ts
            && FirstOccurrences(NonEmpty(ts)) == ts
            && KeepTrimmed(ts) == ts
  {
    var given := if topics == [] then TaxonomyTopics(taxonomy) else topics;
    OccurrencesTrimmed(KeepTrimmed(given));
    DefaultTrimmed();
    NormalIsFixed(NormalTopics(topics, taxonomy, limit), again, limit);
  }

  lemma TaxonomyTopicsNormal(taxonomy: string)
    ensures Normal(TaxonomyTopics(taxonomy))
  {
    var parts := Parts(taxonomy);
    if parts == [] {
      DefaultTrimmed();
    } else {
      HierarchyTrimmed(parts);
      TopicsDistinct(parts);
    }
  }

  /** Without explicit topics the normal form is the start of the taxonomy's hierarchy. */
  lemma TaxonomyNormalForm(taxonomy: string, limit: int)
    requires limit > 0
    ensures NormalTopics([], taxonomy, limit) == FirstN(TaxonomyTopics(taxonomy), limit)
  {
    var ts := TaxonomyTopics(taxonomy);
    TaxonomyTopicsNormal(taxonomy);
    KeepTrimmedFixed(ts);
    NoRepeatsFixed(ts);
    assert FirstN(ts, limit) != [];
  }

  lemma HierarchyTrimmed(parts: seq<string>)
    requires AllTrimmed(parts)
    ensures AllTrimmed(Hierarchy(parts))
  {
    forall i | 0 <= i < |parts| ensures Trimmed(Hierarchy(parts)[i]) && Hierarchy(parts)[i] != "" {
      TopicTrimmed(parts[..i + 1]);
    }
  }

  lemma TopicsDistinct(parts: seq<string>)
    ensures NoRepeats(Hierarchy(parts))
  {
    forall i, j | 0 <= i < j < |parts| ensures Hierarchy(parts)[i] != Hierarchy(parts)[j] {
      TopicsGrow(parts, i, j);
    }
  }

  /** Every topic is strictly longer than those above it. */
  lemma {:induction false} TopicsGrow(parts: seq<string>, i: nat, j: nat)
    requires i < j < |parts|
    ensures |Hierarchy(parts)[i]| < |Hierarchy(parts)[j]| && Hierarchy(parts)[i] < Hierarchy(parts)[j]
    decreases j
  {
    HierarchyChain(parts, j - 1);
    if i < j - 1 {
      TopicsGrow(parts, i, j - 1);
    }
  }
}
