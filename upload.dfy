/**
 * The upload campaign: pairing accounts with videos, the per-worker drain
 * loop `worker_upload`, and the success/total summary that `run_workers`
 * logs. The browser session (starting Chrome on the profile, running the
 * upload steps, quitting) is one abstract call that returns a flag or raises.
 */
module Upload {
  import opened Wrappers
  import opened Text
  import opened Accounts
  import opened Queues

  /** `(profile_dir, display_name, video_path, caption_template)`, one per account paired with a video. */
  datatype Task = Task(profileDir: string, displayName: string, videoPath: string, captionTemplate: string)

  /** What a worker hands to the browser session: the profile, the video and the filled-in caption. */
  datatype UploadRequest = UploadRequest(profileDir: string, videoPath: string, caption: string)

  /**
   * How one browser session ends: `upload_video_with_driver` returned a flag,
   * or creating the driver, uploading or quitting raised.
   */
  datatype SessionOutcome = Returned(ok: bool) | Raised

  /** `(display_name, video_path, success)`, put on the result queue once per claimed task. */
  datatype UploadResult = UploadResult(displayName: string, videoPath: string, success: bool)

  /** The `Successful uploads: {success}/{total}` line. */
  datatype Summary = Summary(succeeded: nat, total: nat)

  /** The smaller of two numbers: the length of a pairing of two lists. */
  function Min(a: int, b: int): int
  {
    if a <= b then a else b
  }

  // ---------------------------------------------------------------- caption

  /** `caption_template.replace('{filename}', Path(video_path).stem)`. */
  function Caption(template: string, videoPath: string): string
  {
    Replace(template, FilenameToken, Stem(videoPath))
  }

  /** `{filename}` cannot overlap itself: only its first character is '{'. */
  lemma FilenameTokenBorderFree()
    ensures BorderFree(FilenameToken)
  {
    var tok := FilenameToken;
    assert '{' !in tok[1..];
    forall k | 0 < k < |tok| ensures tok[k..] != tok[..|tok| - k] {
      assert tok[k..][0] == tok[1..][k - 1];
    }
  }

  /** A template without `{filename}` is the caption verbatim. */
  lemma CaptionVerbatim(template: string, videoPath: string)
    requires TokenFree(template, FilenameToken)
    ensures Caption(template, videoPath) == template
  {
    ReplaceTokenFree(template, FilenameToken, Stem(videoPath));
  }

  /**
   * Every `{filename}` in the template becomes the video's stem and the text
   * between them is kept: a template made of token-free pieces joined by
   * `{filename}` yields the same pieces joined by the stem.
   */
  lemma CaptionFillsEveryToken(pieces: seq<string>, videoPath: string)
    requires forall i :: 0 <= i < |pieces| ==> TokenFree(pieces[i], FilenameToken)
    ensures Caption(Join(pieces, FilenameToken), videoPath) == Join(pieces, Stem(videoPath))
  {
    FilenameTokenBorderFree();
    ReplaceJoin(pieces, FilenameToken, Stem(videoPath));
  }

  /** The default template `{username}` is passed through unchanged. */
  lemma UsernameTemplateVerbatim(videoPath: string)
    ensures Caption(UsernameToken, videoPath) == UsernameToken
  {
    forall i: nat | i <= |UsernameToken| ensures !OccursAt(UsernameToken, FilenameToken, i) {
      if i == 0 {
        assert UsernameToken[1] != FilenameToken[1];
      }
    }
    CaptionVerbatim(UsernameToken, videoPath);
  }

  /**
   * A template that starts with `{filename}` followed by token-free text,
   * with a video `dir/base.ext`, gives `base` followed by that text.
   */
  lemma CaptionLeadingToken(rest: string, dir: string, base: string, ext: string)
    requires TokenFree(rest, FilenameToken)
    requires base != [] && '/' !in base
    requires ext != [] && '/' !in ext && '.' !in ext
    ensures Caption(FilenameToken + rest, dir + "/" + base + "." + ext) == base + rest
  {
    var stem := Stem(dir + "/" + base + "." + ext);
    StemOfFile(dir, base, ext);
    FilenameTokenBorderFree();
    assert FilenameToken + rest == [] + FilenameToken + rest;
    ReplaceAfterTokenFree([], FilenameToken, stem, rest);
    ReplaceTokenFree(rest, FilenameToken, stem);
  }

  /** The pieces of the example template and path. */
  lemma ExamplePieces()
    ensures "{filename} daily" == FilenameToken + " daily"
    ensures "videos/clip_07.mp4" == "videos" + "/" + "clip_07" + "." + "mp4"
    ensures "clip_07" + " daily" == "clip_07 daily"
    ensures TokenFree(" daily", FilenameToken)
    ensures '/' !in "clip_07" && '/' !in "mp4" && '.' !in "mp4"
  {
  }

  /** `"{filename} daily"` with `videos/clip_07.mp4` gives `"clip_07 daily"`. */
  lemma CaptionExample(template: string, videoPath: string)
    requires template == "{filename} daily" && videoPath == "videos/clip_07.mp4"
    ensures Caption(template, videoPath) == "clip_07 daily"
  {
    ExamplePieces();
    CaptionLeadingToken(" daily", "videos", "clip_07", "mp4");
  }

  // ---------------------------------------------------------------- pairing

  /** The task for one account and the video it is given. */
  function MakeTask(a: Account, video: string): Task
  {
    Task(a.profileDir, a.displayName, video, a.captionTemplate)
  }

  /**
   * Accounts and videos paired by position, stopping at the shorter list;
   * the surplus of either list is dropped.
   */
  function Pairing(accs: seq<Account>, videos: seq<string>): (tasks: seq<Task>)
    ensures |tasks| == Min(|accs|, |videos|)
    ensures forall i :: 0 <= i < |tasks| ==> tasks[i] == MakeTask(accs[i], videos[i])
    decreases |accs|
  {
    if accs == [] || videos == [] then []
    else [MakeTask(accs[0], videos[0])] + Pairing(accs[1..], videos[1..])
  }

  /** The task-building loop of `start_upload`, with its `vid_idx` counter. */
  method BuildTasks(accs: seq<Account>, videos: seq<string>) returns (tasks: seq<Task>)
    ensures tasks == Pairing(accs, videos)
  {
    tasks := [];
    var vidIdx := 0;
    for i := 0 to |accs|
      invariant vidIdx == |tasks| == i <= |videos|
      invariant forall j :: 0 <= j < i ==> tasks[j] == MakeTask(accs[j], videos[j])
    {
      if vidIdx >= |videos| {
        break;
      }
      tasks := tasks + [MakeTask(accs[i], videos[vidIdx])];
      vidIdx := vidIdx + 1;
    }
  }

  /** With at least one account and one video there is at least one task. */
  lemma PairingNonEmpty(accs: seq<Account>, videos: seq<string>)
    requires accs != [] && videos != []
    ensures Pairing(accs, videos) != []
  {
  }

  // ---------------------------------------------------------------- worker

  /** What a worker asks the browser session to do for `t`. */
  function RequestFor(t: Task): UploadRequest
  {
    UploadRequest(t.profileDir, t.videoPath, Caption(t.captionTemplate, t.videoPath))
  }

  /** The result a worker puts for `t`. */
  function ResultFor(t: Task, session: UploadRequest -> SessionOutcome): UploadResult
  {
    UploadResult(t.displayName, t.videoPath, session(RequestFor(t)) == Returned(true))
  }

  /** The results for a run of claimed tasks, in claim order, one per task. */
  function ResultsFor(tasks: seq<Task>, session: UploadRequest -> SessionOutcome): (rs: seq<UploadResult>)
    ensures |rs| == |tasks|
    decreases |tasks|
  {
    if tasks == [] then [] else [ResultFor(tasks[0], session)] + ResultsFor(tasks[1..], session)
  }

  /** The result at position `i` is the one for the task at position `i`. */
  lemma {:induction false} ResultsForAt(tasks: seq<Task>, session: UploadRequest -> SessionOutcome, i: nat)
    requires i < |tasks|
    ensures ResultsFor(tasks, session)[i] == ResultFor(tasks[i], session)
    decreases i
  {
    if i > 0 {
      ResultsForAt(tasks[1..], session, i - 1);
    }
  }

  /** The result at each position is the one for the task at that position. */
  lemma ResultsForIndex(tasks: seq<Task>, session: UploadRequest -> SessionOutcome)
    ensures forall i :: 0 <= i < |tasks| ==> ResultsFor(tasks, session)[i] == ResultFor(tasks[i], session)
  {
    forall i | 0 <= i < |tasks| ensures ResultsFor(tasks, session)[i] == ResultFor(tasks[i], session) {
      ResultsForAt(tasks, session, i);
    }
  }

  /**
   * Each result carries its task's display name and video and is flagged
   * true exactly when the session returned true: a session that returned
   * false or raised gives false.
   */
  lemma ResultsForEach(tasks: seq<Task>, session: UploadRequest -> SessionOutcome)
    ensures forall i :: 0 <= i < |tasks| ==>
      && ResultsFor(tasks, session)[i].displayName == tasks[i].displayName
      && ResultsFor(tasks, session)[i].videoPath == tasks[i].videoPath
      && (ResultsFor(tasks, session)[i].success <==> session(RequestFor(tasks[i])) == Returned(true))
  {
    ResultsForIndex(tasks, session);
  }

  /**
   * `worker_upload`: claims tasks until the queue is empty. Each claim puts
   * exactly one result, false when the session raised, and is followed by
   * exactly one `task_done`.
   */
  method WorkerUpload(taskQ: Queue<Task>, resultQ: Queue<UploadResult>, session: UploadRequest -> SessionOutcome)
    requires taskQ.Valid()
    modifies taskQ, resultQ
    ensures taskQ.Valid() && taskQ.items == []
    ensures taskQ.unfinished == old(taskQ.unfinished) - |old(taskQ.items)|
    ensures resultQ.items == old(resultQ.items) + ResultsFor(old(taskQ.items), session)
    ensures resultQ.unfinished == old(resultQ.unfinished) + |old(taskQ.items)|
  {
    while true
      invariant taskQ.Valid()
      invariant taskQ.unfinished - |taskQ.items| == old(taskQ.unfinished) - |old(taskQ.items)|
      invariant resultQ.items + ResultsFor(taskQ.items, session)
             == old(resultQ.items) + ResultsFor(old(taskQ.items), session)
      invariant resultQ.unfinished + |taskQ.items| == old(resultQ.unfinished) + |old(taskQ.items)|
      decreases |taskQ.items|
    {
      ghost var pending := taskQ.items;
      ghost var done := resultQ.items;
      var next := taskQ.GetNowait();
      if next.None? {
        break;
      }
      var task := next.value;
      match session(RequestFor(task)) {
        case Returned(success) =>
          resultQ.Put(UploadResult(task.displayName, task.videoPath, success));
        case Raised =>
          resultQ.Put(UploadResult(task.displayName, task.videoPath, false));
      }
      taskQ.TaskDone();
      ClaimOne(done, pending, session);
    }
  }

  /** Claiming the first pending task moves its result from the pending results to the queue. */
  lemma ClaimOne(done: seq<UploadResult>, pending: seq<Task>, session: UploadRequest -> SessionOutcome)
    requires pending != []
    ensures (done + [ResultFor(pending[0], session)]) + ResultsFor(pending[1..], session)
         == done + ResultsFor(pending, session)
  {
  }

  // ---------------------------------------------------------------- summary

  /** `sum(1 for r in res_list if r[2])`. */
  function SuccessCount(rs: seq<UploadResult>): (n: nat)
    ensures n <= |rs|
    decreases |rs|
  {
    if rs == [] then 0 else (if rs[0].success then 1 else 0) + SuccessCount(rs[1..])
  }

  /** The summary logged for the drained results: successes out of all of them. */
  function Summarize(rs: seq<UploadResult>): (r: Summary)
    ensures r.succeeded <= r.total == |rs|
  {
    Summary(SuccessCount(rs), |rs|)
  }

  /** The successes of two runs of results add up. */
  lemma {:induction false} SuccessCountConcat(a: seq<UploadResult>, b: seq<UploadResult>)
    ensures SuccessCount(a + b) == SuccessCount(a) + SuccessCount(b)
    decreases |a|
  {
    if a == [] {
      assert a + b == b;
    } else {
      assert (a + b)[1..] == a[1..] + b;
      SuccessCountConcat(a[1..], b);
    }
  }

  /** Taking the result at `j` out of a run lowers the count by that result's flag. */
  lemma {:induction false} SuccessCountRemove(b: seq<UploadResult>, j: nat)
    requires j < |b|
    ensures SuccessCount(b) == SuccessCount(b[..j] + b[j + 1..]) + (if b[j].success then 1 else 0)
    decreases j
  {
    var rest := b[..j] + b[j + 1..];
    if j == 0 {
      assert rest == b[1..];
    } else {
      var tail := b[1..];
      SuccessCountRemove(tail, j - 1);
      assert rest[0] == b[0];
      assert rest[1..] == tail[..j - 1] + tail[j..];
    }
  }

  /** Taking one occurrence of `x` out of two equal multisets leaves them equal. */
  lemma MultisetRemove(a: seq<UploadResult>, b: seq<UploadResult>, j: nat)
    requires a != [] && j < |b| && b[j] == a[0]
    requires multiset(a) == multiset(b)
    ensures multiset(a[1..]) == multiset(b[..j] + b[j + 1..])
  {
    var x := a[0];
    calc {
      multiset(a[1..]);
      { assert a == [x] + a[1..]; }
      multiset(a) - multiset{x};
      multiset(b) - multiset{x};
      { assert b == b[..j] + [x] + b[j + 1..]; }
      multiset(b[..j]) + multiset(b[j + 1..]);
      multiset(b[..j] + b[j + 1..]);
    }
  }

  /** The count of successes depends only on which results there are, not on their order. */
  lemma {:induction false} SuccessCountPermutation(a: seq<UploadResult>, b: seq<UploadResult>)
    requires multiset(a) == multiset(b)
    ensures SuccessCount(a) == SuccessCount(b)
    decreases |a|
  {
    if a == [] {
      assert |b| == |multiset(b)| == 0;
    } else {
      assert a[0] in multiset(b);
      var j :| 0 <= j < |b| && b[j] == a[0];
      MultisetRemove(a, b, j);
      SuccessCountPermutation(a[1..], b[..j] + b[j + 1..]);
      SuccessCountRemove(b, j);
    }
  }

  /**
   * Workers finish in any order, so the result queue holds some reordering
   * of the claim-order results; the summary is the same for every one.
   */
  lemma SummaryIgnoresCompletionOrder(tasks: seq<Task>, session: UploadRequest -> SessionOutcome, rs: seq<UploadResult>)
    requires multiset(rs) == multiset(ResultsFor(tasks, session))
    ensures Summarize(rs) == Summarize(ResultsFor(tasks, session))
    ensures Summarize(rs).total == |tasks|
  {
    SuccessCountPermutation(rs, ResultsFor(tasks, session));
    assert |rs| == |multiset(rs)|;
  }

  /** All results are successes exactly when the count of successes is the total. */
  lemma {:induction false} AllSucceeded(rs: seq<UploadResult>)
    ensures SuccessCount(rs) == |rs| <==> forall i :: 0 <= i < |rs| ==> rs[i].success
    decreases |rs|
  {
    if rs != [] {
      AllSucceeded(rs[1..]);
      assert forall i :: 1 <= i < |rs| ==> rs[i] == rs[1..][i - 1];
    }
  }

  /** No result is a success exactly when the count of successes is zero. */
  lemma {:induction false} NoneSucceeded(rs: seq<UploadResult>)
    ensures SuccessCount(rs) == 0 <==> forall i :: 0 <= i < |rs| ==> !rs[i].success
    decreases |rs|
  {
    if rs != [] {
      NoneSucceeded(rs[1..]);
      assert forall i :: 1 <= i < |rs| ==> rs[i] == rs[1..][i - 1];
    }
  }

  /** A session that returns true for every task gives `succeeded == total`. */
  lemma SummaryAllAccepted(tasks: seq<Task>, session: UploadRequest -> SessionOutcome)
    requires forall i :: 0 <= i < |tasks| ==> session(RequestFor(tasks[i])) == Returned(true)
    ensures Summarize(ResultsFor(tasks, session)) == Summary(|tasks|, |tasks|)
  {
    ResultsForEach(tasks, session);
    AllSucceeded(ResultsFor(tasks, session));
  }

  /** A session that returns false or raises for every task gives `succeeded == 0`. */
  lemma SummaryNoneAccepted(tasks: seq<Task>, session: UploadRequest -> SessionOutcome)
    requires forall i :: 0 <= i < |tasks| ==> session(RequestFor(tasks[i])) != Returned(true)
    ensures Summarize(ResultsFor(tasks, session)) == Summary(0, |tasks|)
  {
    ResultsForEach(tasks, session);
    NoneSucceeded(ResultsFor(tasks, session));
  }

  // ---------------------------------------------------------------- run

  /**
   * Starts `workers` workers on the task queue and waits for
   * `task_q.join()`. The workers run one after another here: the first
   * drains the queue and the others find it empty.
   */
  method RunPool(taskQ: Queue<Task>, resultQ: Queue<UploadResult>, workers: int,
                 session: UploadRequest -> SessionOutcome)
    requires workers >= 1
    requires taskQ.unfinished == |taskQ.items|
    modifies taskQ, resultQ
    ensures taskQ.items == [] && taskQ.unfinished == 0
    ensures resultQ.items == old(resultQ.items) + ResultsFor(old(taskQ.items), session)
  {
    for w := 0 to workers
      invariant taskQ.Valid() && taskQ.unfinished == |taskQ.items|
      invariant w == 0 ==> taskQ.items == old(taskQ.items) && resultQ.items == old(resultQ.items)
      invariant w > 0 ==> taskQ.items == [] && resultQ.items == old(resultQ.items) + ResultsFor(old(taskQ.items), session)
    {
      WorkerUpload(taskQ, resultQ, session);
      if w > 0 {
        assert ResultsFor([], session) == [];
        assert resultQ.items == old(resultQ.items) + ResultsFor(old(taskQ.items), session) + [];
      }
    }
  }

  /** Drains the result queue with `empty()`/`get()` into a list, oldest first. */
  method DrainResults(resultQ: Queue<UploadResult>) returns (results: seq<UploadResult>)
    modifies resultQ
    ensures results == old(resultQ.items)
    ensures resultQ.items == [] && resultQ.unfinished == old(resultQ.unfinished)
  {
    results := [];
    while !resultQ.IsEmpty()
      invariant results + resultQ.items == old(resultQ.items)
      invariant resultQ.unfinished == old(resultQ.unfinished)
      decreases |resultQ.items|
    {
      var r := resultQ.Get();
      results := results + [r];
    }
    assert results + [] == results;
  }

  /**
   * `run_workers`: runs the pool, drains the result queue and summarises
   * it: as many results as tasks, and the count of those the session
   * accepted.
   */
  method RunWorkers(taskQ: Queue<Task>, resultQ: Queue<UploadResult>, workers: int,
                    session: UploadRequest -> SessionOutcome) returns (summary: Summary)
    requires workers >= 1
    requires taskQ.unfinished == |taskQ.items|
    requires resultQ.items == []
    modifies taskQ, resultQ
    ensures taskQ.items == [] && taskQ.unfinished == 0
    ensures resultQ.items == []
    ensures summary == Summarize(ResultsFor(old(taskQ.items), session))
    ensures summary.succeeded <= summary.total == |old(taskQ.items)|
  {
    ghost var expected := ResultsFor(taskQ.items, session);
    RunPool(taskQ, resultQ, workers, session);
    assert resultQ.items == [] + expected == expected;
    var results := DrainResults(resultQ);
    summary := Summarize(results);
  }

  /**
   * The part of `start_upload` after validation: queues the tasks in order
   * on a fresh task queue and hands it, with a fresh result queue, to
   * `run_workers`. The summary counts one result per task.
   */
  method RunUpload(tasks: seq<Task>, workers: int, session: UploadRequest -> SessionOutcome)
    returns (summary: Summary)
    requires workers >= 1
    ensures summary == Summarize(ResultsFor(tasks, session))
    ensures summary.succeeded <= summary.total == |tasks|
  {
    var taskQ := new Queue<Task>();
    var resultQ := new Queue<UploadResult>();
    for i := 0 to |tasks|
      invariant taskQ.items == tasks[..i] && taskQ.unfinished == i
      invariant resultQ.items == [] && resultQ.unfinished == 0
      modifies taskQ
    {
      assert tasks[..i + 1] == tasks[..i] + [tasks[i]];
      taskQ.Put(tasks[i]);
    }
    assert tasks[..|tasks|] == tasks;
    summary := RunWorkers(taskQ, resultQ, workers, session);
  }
}
