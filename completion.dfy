/** The completion service as the classifiers see it, and the validation that turns its reply
    into a label of a closed label set (shared by the category and the facility classifier). */
module Completion {
  import opened Frame
  import opened Text
  import Keywords

  /** What one request to the completion service gives back: a completion (whose message
      content may be null) with its reported token usage, or an error raised by the client. */
  datatype Reply = Completion(content: Option<string>, usage: nat) | ServiceError(message: string)

  /** The sentinel for an answer that could not be resolved. */
  const NeedsReview: string := "Needs Review"

  /** `reply.strip()`, then, if it holds a colon, `split(":")[1].strip()`: the text between
      the first and the second colon. */
  function CleanLabel(raw: string): (r: string)
    ensures ':' !in r
    ensures ':' !in raw ==> r == Strip(raw)
  {
    StripWhereChars(raw, IsSpace);
    var t := Strip(raw);
    if ':' in t then
      var piece := SplitOn(t, ':')[1];
      StripWhereChars(piece, IsSpace);
      Strip(piece)
    else t
  }

  /** The labels as a fuzzy-match table: each label keyed by its lower-case form. */
  function LabelTable(labels: seq<string>): (table: Keywords.Table)
    ensures |table| == |labels|
    ensures forall k :: 0 <= k < |labels| ==> table[k] == (Lower(labels[k]), labels[k])
  {
    seq(|labels|, k requires 0 <= k < |labels| => (Lower(labels[k]), labels[k]))
  }

  /** Exact match first; otherwise the first label (in list order) whose lower-case form
      occurs in the lower-cased text; otherwise the sentinel. */
  function MatchLabel(t: string, labels: seq<string>): (r: string)
    ensures r in labels || r == NeedsReview
    ensures t in labels ==> r == t
  {
    if t in labels then t
    else match Keywords.FirstHit(Lower(t), LabelTable(labels))
      case Some(l) => l
      case None => NeedsReview
  }

  /** The label a classifier returns for one reply: any failure (an error from the service, a
      null message) becomes the sentinel. */
  function ClassifyReply(reply: Reply, labels: seq<string>): (r: string)
    ensures r in labels || r == NeedsReview
    ensures !(reply.Completion? && reply.content.Some?) ==> r == NeedsReview
  {
    match reply
    case Completion(Some(content), _) => MatchLabel(CleanLabel(content), labels)
    case _ => NeedsReview
  }

  /** A reply that is exactly one of the labels, with no colon and no surrounding white space,
      comes back unchanged. */
  lemma ExactLabelKept(name: string, labels: seq<string>, usage: nat)
    requires name in labels && ':' !in name
    requires name != [] ==> !IsSpace(name[0]) && !IsSpace(name[|name| - 1])
    ensures ClassifyReply(Completion(Some(name), usage), labels) == name
  {
    CleanLabelKeeps(name);
  }

  /** A text with no colon and nothing to strip is its own cleaned label. */
  lemma CleanLabelKeeps(t: string)
    requires ':' !in t
    requires t != [] ==> !IsSpace(t[0]) && !IsSpace(t[|t| - 1])
    ensures CleanLabel(t) == t
  {
    StripWhereKeeps(t, IsSpace);
  }

  /** A reply without a colon or surrounding white space that is no label and contains no
      label (ignoring case) gives the sentinel. */
  lemma UnmatchedReply(reply: string, labels: seq<string>, usage: nat)
    requires forall k :: 0 <= k < |reply| ==> reply[k] != ':'
    requires reply != [] && !IsSpace(reply[0]) && !IsSpace(reply[|reply| - 1])
    requires reply !in labels
    requires forall k :: 0 <= k < |labels| ==> !Contains(Lower(reply), Lower(labels[k]))
    ensures ClassifyReply(Completion(Some(reply), usage), labels) == NeedsReview
  {
    CleanLabelKeeps(reply);
    FuzzyMatchIsFirst(reply, labels);
  }

  /** A reply without a colon or surrounding white space that is no label gives the first
      label (in list order) contained in it, ignoring case. */
  lemma FuzzyReply(reply: string, labels: seq<string>, usage: nat, k: int)
    requires forall k :: 0 <= k < |reply| ==> reply[k] != ':'
    requires reply != [] && !IsSpace(reply[0]) && !IsSpace(reply[|reply| - 1])
    requires reply !in labels
    requires Keywords.FirstHitAt(Lower(reply), LabelTable(labels), k)
    ensures ClassifyReply(Completion(Some(reply), usage), labels) == labels[k]
  {
    CleanLabelKeeps(reply);
    FuzzyMatchIsFirst(reply, labels);
  }

  /** "Field: answer" is read as the answer: the part before the first colon is dropped and
      the rest trimmed. */
  lemma {:induction false} CleanLabelAfterColon(head: string, answer: string)
    requires ':' !in head && ':' !in answer
    requires head == [] || !IsSpace(head[0])
    requires answer == [] || !IsSpace(answer[|answer| - 1])
    ensures CleanLabel(head + ":" + answer) == Strip(answer)
  {
    var raw := head + ":" + answer;
    assert raw[0] == if head == [] then ':' else head[0];
    assert raw[|raw| - 1] == if answer == [] then ':' else answer[|answer| - 1];
    StripWhereKeeps(raw, IsSpace);
    assert raw[..|head|] == head;
    IndexOfAt(raw, ':', |head|);
    assert raw[|head| + 1..] == answer;
    SecondPiece(raw, ':');
  }

  /** The usual "Field: answer" shape, with one space after the colon, gives the answer. */
  lemma CleanLabelFieldReply(head: string, answer: string)
    requires ':' !in head && ':' !in answer
    requires head == [] || !IsSpace(head[0])
    requires answer != [] && !IsSpace(answer[0]) && !IsSpace(answer[|answer| - 1])
    ensures CleanLabel(head + ": " + answer) == answer
  {
    var spaced := " " + answer;
    StripOneSpace(answer);
    assert ':' !in spaced && spaced[|spaced| - 1] == answer[|answer| - 1];
    assert head + ": " + answer == head + ":" + spaced;
    CleanLabelAfterColon(head, spaced);
  }

  lemma StripOneSpace(answer: string)
    requires answer != [] && !IsSpace(answer[0]) && !IsSpace(answer[|answer| - 1])
    ensures Strip(" " + answer) == answer
  {
    var spaced := " " + answer;
    assert spaced[1..] == answer;
    assert TrimStart(spaced, IsSpace) == answer;
    StripWhereKeeps(answer, IsSpace);
  }

  /** Only the text between the first and the second colon survives: whatever follows the
      second colon is lost. */
  lemma {:induction false} CleanLabelDropsAfterSecondColon(head: string, answer: string, tail: string)
    requires ':' !in head && ':' !in answer
    requires head == [] || !IsSpace(head[0])
    requires tail == [] || !IsSpace(tail[|tail| - 1])
    ensures CleanLabel(head + ":" + answer + ":" + tail) == Strip(answer)
  {
    var raw := head + ":" + answer + ":" + tail;
    assert raw[0] == if head == [] then ':' else head[0];
    assert raw[|raw| - 1] == if tail == [] then ':' else tail[|tail| - 1];
    StripWhereKeeps(raw, IsSpace);
    SecondColonPiece(head, answer, tail);
    assert CleanLabel(raw) == Strip(SplitOn(raw, ':')[1]);
  }

  lemma SecondColonPiece(head: string, answer: string, tail: string)
    requires ':' !in head && ':' !in answer
    ensures SplitOn(head + ":" + answer + ":" + tail, ':')[1] == answer
  {
    var raw := head + ":" + answer + ":" + tail;
    assert raw[..|head|] == head;
    IndexOfAt(raw, ':', |head|);
    var rest := raw[|head| + 1..];
    assert rest == answer + ":" + tail;
    assert rest[..|answer|] == answer;
    IndexOfAt(rest, ':', |answer|);
    SecondPiece(raw, ':');
  }

  /** When the cleaned reply is not itself a label, the result is the first label in list
      order contained (ignoring case) in it, and the sentinel when there is none. */
  lemma FuzzyMatchIsFirst(t: string, labels: seq<string>)
    requires t !in labels
    ensures (forall k :: 0 <= k < |labels| ==> !Contains(Lower(t), Lower(labels[k]))) ==> MatchLabel(t, labels) == NeedsReview
    ensures forall k :: Keywords.FirstHitAt(Lower(t), LabelTable(labels), k) ==> MatchLabel(t, labels) == labels[k]
  {
    var table := LabelTable(labels);
    Keywords.FirstHitNone(Lower(t), table);
    forall k | Keywords.FirstHitAt(Lower(t), table, k) ensures MatchLabel(t, labels) == labels[k] {
      Keywords.FirstHitIsEarliest(Lower(t), table, k);
    }
  }
}
