/**
 * The chats both scripts build from a raw CSV export: one per transcript, numbered as the
 * scripts number them, with the question from the CSV column or, failing that, the dialog.
 */
module Chats {
  import opened Wrappers
  import opened Transcripts
  import opened QuestionColumn
  import opened Dialog

  /** One chat: its line number in the spreadsheet, its initial question and its dialog. */
  datatype Chat = Chat(index: nat, question: Option<string>, dialog: seq<string>)

  /** The loop of `main`: chats are numbered from 2 (the spreadsheet's header is row 1); the
      question is the Initial Question column when present, otherwise the first real utterance. */
  function BuildChats(transcripts: seq<seq<string>>): (chats: seq<Chat>)
    requires forall k :: 0 <= k < |transcripts| ==> |transcripts[k]| > 0
    ensures |chats| == |transcripts|
    ensures forall k :: 0 <= k < |chats| ==> chats[k].index == k + 2 && chats[k].dialog == DialogList(transcripts[k])
    ensures forall k :: 0 <= k < |chats| ==>
              (chats[k].question.None? <==>
                 FindInitialQuestion(transcripts[k]).None? &&
                 forall j :: 0 <= j < |chats[k].dialog| ==> !IsQuestionEntry(chats[k].dialog[j]))
    ensures forall k :: 0 <= k < |chats| ==>
              var column := FindInitialQuestion(transcripts[k]);
              && (column.Some? ==> chats[k].question == column)
              && (column.None? ==> chats[k].question == FindInitialQuestionInDialog(chats[k].dialog))
  {
    seq(|transcripts|, k requires 0 <= k < |transcripts| =>
      var dialog := DialogList(transcripts[k]);
      var q := FindInitialQuestion(transcripts[k]);
      Chat(k + 2, if q.None? then FindInitialQuestionInDialog(dialog) else q, dialog))
  }

  /** `main` up to the output: the chats built from the file's transcripts grouped by date line
      (one chat per date line, or one for a file without any). An empty file
      gives one empty transcript, on which findInitialQuestion fails (it reads the transcript's
      first line); the model reports that as None. */
  function ReadChats(lines: seq<string>): (chats: Option<seq<Chat>>)
    ensures chats.None? <==> |lines| == 0
    ensures chats.Some? ==> var p := DatePositions(lines); |chats.value| == if |p| == 0 then 1 else |p|
    ensures chats.Some? ==>
              var ts := TranscriptsByDate(lines);
              && (forall k :: 0 <= k < |ts| ==> |ts[k]| > 0)
              && chats.value == BuildChats(ts)
  {
    if |lines| == 0 then None
    else
      TranscriptsNonEmpty(lines);
      Some(BuildChats(ReadRawChats(lines)))
  }
}
