/**
  The recording work list of the voice generator: every response record of a
  personality that carries both an id and a text becomes one job, whose words
  have the `{capturedPiece}` placeholder spoken as "piece" and whose voice is
  chosen by `Voices.VoiceFor` from the personality's name and theme.
 */
module Jobs {
  import opened Text
  import opened Voices

  datatype Option<T> = None | Some(value: T) {
    /** The value, or `default` when absent (Python's `dict.get(key, default)`). */
    function GetOr(default: T): T {
      match this
      case Some(v) => v
      case None => default
    }
  }

  /** A response record as read from a personality file; either field may be missing. */
  datatype ResponseRecord = ResponseRecord(id: Option<string>, text: Option<string>)

  /** A personality as read from a file; name and theme fall back to "default", responses to none. */
  datatype Personality = Personality(
    name: Option<string>,
    theme: Option<string>,
    responses: Option<seq<ResponseRecord>>)

  /** One recording to produce: the words to speak, the response id it is stored under, the voice. */
  datatype Job = Job(text: string, id: string, voice: string)

  /** The name or theme assumed when a personality does not give one. */
  const Unnamed := "default"

  /** The template variable that cannot be known when recording ahead of time. */
  const Placeholder := "{capturedPiece}"

  /** What the placeholder is spoken as. */
  const PlaceholderWord := "piece"

  /** Replacing the placeholder by "piece" can never rebuild a placeholder. */
  lemma PlaceholderSeparated()
    ensures Separated(Placeholder, PlaceholderWord)
  {
    forall k | 1 <= k < |Placeholder|
      ensures !Overlaps(Placeholder[k..], PlaceholderWord)
    {
      var q := Placeholder[k..];
      assert q[|q| - 1] == '}';
      if k <= 10 {
        assert q[0] != 'p' || q[1] != 'i';
      }
    }
  }

  /** The words recorded for a response text: every placeholder spoken as "piece". */
  function Speakable(text: string): (r: string)
    ensures !Contains(r, Placeholder)
    ensures !Contains(text, Placeholder) ==> r == text
  {
    PlaceholderSeparated();
    ReplaceRemovesPattern(text, Placeholder, PlaceholderWord);
    ReplaceAll(text, Placeholder, PlaceholderWord)
  }

  /** A line that mentions the captured piece is recorded with the word "piece" in its place. */
  lemma SpeakableExample()
    ensures Speakable("I took your {capturedPiece}!") == "I took your piece!"
  {
    var before, after := "I took your ", "!";
    assert "I took your {capturedPiece}!" == before + (Placeholder + after);
    assert ReplaceAll(before + (Placeholder + after), Placeholder, PlaceholderWord)
        == before + (PlaceholderWord + after) by {
      ReplaceCopiesPlainPrefix(before, Placeholder + after, Placeholder, PlaceholderWord);
      ReplaceLeadingPattern(after, Placeholder, PlaceholderWord);
      ShortDoesNotContain(after, Placeholder);
    }
    assert before + (PlaceholderWord + after) == "I took your piece!";
  }

  /** Text before a placeholder, free of `{`, is recorded as written. */
  lemma SpeakableKeepsPlainText(a: string, x: string)
    requires forall i :: 0 <= i < |a| ==> a[i] != '{'
    ensures Speakable(a + x) == a + Speakable(x)
  {
    ReplaceCopiesPlainPrefix(a, x, Placeholder, PlaceholderWord);
  }

  /** A placeholder is recorded as "piece", and the text after it is processed in turn. */
  lemma SpeakableReplacesPlaceholder(x: string)
    ensures Speakable(Placeholder + x) == PlaceholderWord + Speakable(x)
  {
    ReplaceLeadingPattern(x, Placeholder, PlaceholderWord);
  }

  /** Any other character, including a `{` that does not open a placeholder, is recorded as written. */
  lemma SpeakableKeepsOtherChar(c: char, x: string)
    requires !StartsWith([c] + x, Placeholder)
    ensures Speakable([c] + x) == [c] + Speakable(x)
  {
    assert ([c] + x)[1..] == x;
  }

  /** A record that can be recorded: it has both an id and a text. */
  predicate Complete(r: ResponseRecord) {
    r.id.Some? && r.text.Some?
  }

  /** The job for a complete record of a personality with the given name and theme. */
  function JobFor(name: string, theme: string, r: ResponseRecord): (job: Job)
    requires Complete(r)
    ensures job.id == r.id.value
    ensures !Contains(job.text, Placeholder)
    ensures !Contains(r.text.value, Placeholder) ==> job.text == r.text.value
    ensures IsStoredVoice(job.voice)
  {
    Job(Speakable(r.text.value), r.id.value, VoiceFor(name, theme, r.id.value))
  }

  /** How many records have both an id and a text. */
  function CountComplete(rs: seq<ResponseRecord>): (n: nat)
    ensures n <= |rs|
    ensures n == |rs| <==> forall k :: 0 <= k < |rs| ==> Complete(rs[k])
    decreases |rs|
  {
    if |rs| == 0 then 0
    else
      var init := rs[..|rs| - 1];
      assert forall k :: 0 <= k < |init| ==> init[k] == rs[k];
      CountComplete(init) + (if Complete(rs[|rs| - 1]) then 1 else 0)
  }

  /**
    `jobs` lists the jobs of the complete records of `rs` in record order: the
    complete record at index `k` yields the job at the index that counts the
    complete records before it, and there are no other jobs.
   */
  predicate InRecordOrder(name: string, theme: string, rs: seq<ResponseRecord>, jobs: seq<Job>) {
    && |jobs| == CountComplete(rs)
    && forall k :: 0 <= k < |rs| && Complete(rs[k]) ==>
         CountComplete(rs[..k]) < |jobs| && jobs[CountComplete(rs[..k])] == JobFor(name, theme, rs[k])
  }

  /** Appending one record keeps the jobs in record order. */
  lemma InRecordOrderStep(name: string, theme: string, init: seq<ResponseRecord>, last: ResponseRecord, jobs: seq<Job>)
    requires InRecordOrder(name, theme, init, jobs)
    ensures InRecordOrder(name, theme, init + [last],
      if Complete(last) then jobs + [JobFor(name, theme, last)] else jobs)
  {
    var rs := init + [last];
    assert rs[..|rs| - 1] == init;
    forall k | 0 <= k < |init|
      ensures rs[..k] == init[..k] && rs[k] == init[k]
    {
    }
  }

  /**
    The jobs for one personality's responses: one per complete record, in
    record order, none for the rest.
   */
  function ResponseJobs(name: string, theme: string, rs: seq<ResponseRecord>): (jobs: seq<Job>)
    ensures |jobs| == CountComplete(rs)
    ensures |jobs| == |rs| <==> forall k :: 0 <= k < |rs| ==> Complete(rs[k])
    ensures forall r :: r in rs && Complete(r) ==> JobFor(name, theme, r) in jobs
    ensures forall job :: job in jobs ==> exists r :: r in rs && Complete(r) && job == JobFor(name, theme, r)
    ensures forall job :: job in jobs ==> !Contains(job.text, Placeholder) && job.voice == VoiceFor(name, theme, job.id)
    decreases |rs|
  {
    if |rs| == 0 then []
    else
      var init := rs[..|rs| - 1];
      var last := rs[|rs| - 1];
      var earlier := ResponseJobs(name, theme, init);
      assert rs == init + [last];
      assert CountComplete(rs) == |earlier| + (if Complete(last) then 1 else 0);
      if Complete(last) then earlier + [JobFor(name, theme, last)]
      else assert !Complete(rs[|rs| - 1]); earlier
  }

  /** The jobs of `ResponseJobs` follow the records: no job is repeated, dropped or moved. */
  lemma {:induction false} ResponseJobsInRecordOrder(name: string, theme: string, rs: seq<ResponseRecord>)
    ensures InRecordOrder(name, theme, rs, ResponseJobs(name, theme, rs))
    decreases |rs|
  {
    if |rs| > 0 {
      var init := rs[..|rs| - 1];
      ResponseJobsInRecordOrder(name, theme, init);
      InRecordOrderStep(name, theme, init, rs[|rs| - 1], ResponseJobs(name, theme, init));
      assert rs == init + [rs[|rs| - 1]];
    }
  }

  /** The personality's name, theme and responses, with the source's defaults for missing fields. */
  function NameOf(p: Personality): string { p.name.GetOr(Unnamed) }
  function ThemeNameOf(p: Personality): string { p.theme.GetOr(Unnamed) }
  function ResponsesOf(p: Personality): seq<ResponseRecord> { p.responses.GetOr([]) }

  /** The jobs of one personality: its complete responses, voiced for its name and theme or "default". */
  function PersonalityJobs(p: Personality): (jobs: seq<Job>)
    ensures |jobs| == CountComplete(ResponsesOf(p))
    ensures p.responses.None? ==> jobs == []
    ensures forall job :: job in jobs ==> job.voice == VoiceFor(NameOf(p), ThemeNameOf(p), job.id)
    ensures p.name.None? && p.theme.None? ==> forall job :: job in jobs ==> job.voice == VoiceFor(Unnamed, Unnamed, job.id)
  {
    ResponseJobs(NameOf(p), ThemeNameOf(p), ResponsesOf(p))
  }

  /** `job` is the job of complete record `r` of personality `p`. */
  predicate JobOf(p: Personality, r: ResponseRecord, job: Job) {
    Complete(r) && job == JobFor(NameOf(p), ThemeNameOf(p), r)
  }

  /** The jobs of a whole personality file: each personality's jobs, in file order. */
  function FileJobs(ps: seq<Personality>): (jobs: seq<Job>)
    ensures forall job :: job in jobs ==> !Contains(job.text, Placeholder)
    ensures forall job :: job in jobs ==> exists p, r :: p in ps && r in ResponsesOf(p) && JobOf(p, r, job)
    ensures forall p, r :: p in ps && r in ResponsesOf(p) && Complete(r) ==>
      JobFor(NameOf(p), ThemeNameOf(p), r) in jobs
    decreases |ps|
  {
    if |ps| == 0 then []
    else
      var init := ps[..|ps| - 1];
      var last := ps[|ps| - 1];
      assert ps == init + [last];
      FileJobs(init) + PersonalityJobs(last)
  }

  /** The jobs of the first `i + 1` personalities extend those of the first `i`. */
  lemma FileJobsAppend(ps: seq<Personality>, i: nat)
    requires i < |ps|
    ensures FileJobs(ps[..i + 1]) == FileJobs(ps[..i]) + PersonalityJobs(ps[i])
  {
    assert ps[..i + 1][..i] == ps[..i];
  }

  /** The inner loop of the generator: for each response that has a text and an id, append its job. */
  method CollectResponseJobs(name: string, theme: string, rs: seq<ResponseRecord>) returns (jobs: seq<Job>)
    ensures jobs == ResponseJobs(name, theme, rs)
    ensures forall job :: job in jobs ==> !Contains(job.text, Placeholder)
  {
    jobs := [];
    for k := 0 to |rs|
      invariant jobs == ResponseJobs(name, theme, rs[..k])
    {
      var response := rs[k];
      assert rs[..k + 1][..k] == rs[..k];
      if response.text.Some? && response.id.Some? {
        var textToSpeak := Speakable(response.text.value);
        var voice := VoiceFor(name, theme, response.id.value);
        jobs := jobs + [Job(textToSpeak, response.id.value, voice)];
      }
    }
    assert rs[..|rs|] == rs;
  }

  /**
    The outer loop of the generator over an already parsed file: the jobs of
    every personality, in file order. A file without a personality list
    yields no jobs.
   */
  method CollectJobs(personalities: Option<seq<Personality>>) returns (tasks: seq<Job>)
    ensures tasks == FileJobs(personalities.GetOr([]))
    ensures personalities.None? ==> tasks == []
    ensures forall job :: job in tasks ==> !Contains(job.text, Placeholder)
  {
    var ps := personalities.GetOr([]);
    tasks := [];
    for i := 0 to |ps|
      invariant tasks == FileJobs(ps[..i])
    {
      var p := ps[i];
      var jobs := CollectResponseJobs(p.name.GetOr(Unnamed), p.theme.GetOr(Unnamed), p.responses.GetOr([]));
      FileJobsAppend(ps, i);
      tasks := tasks + jobs;
    }
    assert ps[..|ps|] == ps;
  }

  /** Records without an id or without a text are skipped, so they add no job. */
  lemma IncompleteRecordsAddNothing(name: string, theme: string, rs: seq<ResponseRecord>, r: ResponseRecord)
    requires !Complete(r)
    ensures ResponseJobs(name, theme, rs + [r]) == ResponseJobs(name, theme, rs)
  {
    assert (rs + [r])[..|rs|] == rs;
  }
}
