/**
 * What the bot does in reply to one incoming message, as the list of
 * platform and filesystem actions it issues and the way the handler exits.
 * Every outside call (downloads, decoding the photo, saving it, delivering a
 * message or a file) is decided by a `Platform` value given as a parameter.
 */
module Handlers {
  import Geometry
  import Messages
  import Report

  /** Why a platform call failed: the person blocked the bot, deleted their account, or anything else. */
  datatype Fault = UserBlocked | UserDeactivated | Failure(description: string)

  /** The two faults that mean the person can no longer be reached. */
  predicate Unreachable(f: Fault) { f.UserBlocked? || f.UserDeactivated? }

  /** What happened to one message or file the bot tried to send. */
  datatype Delivery = Delivered | Refused(fault: Fault)

  /** A refusal that `safe_respond` does not swallow. */
  predicate Fails(d: Delivery) { d.Refused? && !Unreachable(d.fault) }

  /** How a handler leaves a send: raising the fault of a refusal that is not swallowed, else returning. */
  function AfterSend(dv: Delivery): (e: Exit)
    ensures e.Raised? <==> Fails(dv)
    ensures e.Raised? ==> e.fault == dv.fault
    // a blocked or deleted account never escapes a send
    ensures e.Raised? ==> !Unreachable(e.fault)
  {
    if Fails(dv) then Raised(dv.fault) else Returned
  }

  /** The person who wrote to the bot, or the fixed administrator account. */
  datatype Peer = Sender | Admin

  datatype Action =
    | SendText(to: Peer, text: string)
    | SendFile(path: string)
    | Delete(path: string)

  /** A handler either returns or raises the fault that stopped it. */
  datatype Exit = Returned | Raised(fault: Fault)

  datatype Trace = Trace(actions: seq<Action>, exit: Exit)

  /** What a download call produced: a local file, nothing (`None`), or an error. */
  datatype Download = Downloaded(path: string) | NothingToDownload | DownloadFailed(error: string)

  /** What the imaging library finds in the downloaded file. */
  datatype Picture = Decoded(width: nat, height: nat) | Undecodable(error: string)

  /** Whether writing the stamped photo back to its file succeeded. */
  datatype Storage = Stored | StoreFailed(error: string)

  /** The outside world for one request. */
  datatype Platform = Platform(
    download: Download,
    picture: Picture,
    storage: Storage,
    deliver: Action -> Delivery)

  /** The three texts `log_on_error` puts in the administrator's report. */
  datatype Diagnostics = Diagnostics(
    describe: Fault -> string,
    traceback: Fault -> string,
    event: string)

  /** The message, file and error actions addressed to the administrator. */
  predicate ReachesAdmin(actions: seq<Action>)
  {
    exists i :: 0 <= i < |actions| && actions[i].SendText? && actions[i].to == Admin
  }

  /** Every file sent is removed by the very next action. */
  predicate CleansUp(actions: seq<Action>)
  {
    forall i :: 0 <= i < |actions| && actions[i].SendFile? ==>
      i + 1 < |actions| && actions[i + 1] == Delete(actions[i].path)
  }

  /**
   * Handler a runs, and if it returns, handler b runs after it: the pair
   * raises when either part does, a's actions come first, and cleanup and
   * silence towards the administrator carry over from the parts.
   */
  function Then(a: Trace, b: Trace): (t: Trace)
    ensures t.exit.Raised? <==> a.exit.Raised? || b.exit.Raised?
    ensures a.actions <= t.actions
    ensures CleansUp(a.actions) && CleansUp(b.actions) ==> CleansUp(t.actions)
    ensures !ReachesAdmin(a.actions) && !ReachesAdmin(b.actions) ==> !ReachesAdmin(t.actions)
  {
    if a.exit.Raised? then a
    else
      assert CleansUp(a.actions) && CleansUp(b.actions) ==> CleansUp(a.actions + b.actions) by {
        if CleansUp(a.actions) && CleansUp(b.actions) { CleansUpAppend(a.actions, b.actions); }
      }
      assert !ReachesAdmin(a.actions) && !ReachesAdmin(b.actions) ==> !ReachesAdmin(a.actions + b.actions) by {
        var ab := a.actions + b.actions;
        forall i | 0 <= i < |ab|
          ensures ab[i] == if i < |a.actions| then a.actions[i] else b.actions[i - |a.actions|]
        {
        }
      }
      Trace(a.actions + b.actions, b.exit)
  }

  /** Appending a cleaned-up action list to another keeps every file paired with its removal. */
  lemma {:induction false} CleansUpAppend(a: seq<Action>, b: seq<Action>)
    requires CleansUp(a) && CleansUp(b)
    ensures CleansUp(a + b)
  {
    var ab := a + b;
    forall i | 0 <= i < |ab| && ab[i].SendFile?
      ensures i + 1 < |ab| && ab[i + 1] == Delete(ab[i].path)
    {
      if i < |a| {
        assert a[i] == ab[i];
        assert ab[i + 1] == a[i + 1];
      } else {
        assert b[i - |a|] == ab[i];
        assert ab[i + 1] == b[i - |a| + 1];
      }
    }
  }

  /**
   * `safe_respond`: one text to the person; a refusal because they blocked
   * the bot or deleted their account is swallowed, any other failure raised.
   */
  function SafeRespond(text: string, p: Platform): (t: Trace)
    ensures t.actions == [SendText(Sender, text)]
    ensures t.exit.Raised? <==> Fails(p.deliver(SendText(Sender, text)))
    ensures t.exit.Raised? ==> t.exit.fault == p.deliver(SendText(Sender, text)).fault
  {
    var a := SendText(Sender, text);
    match p.deliver(a)
    case Refused(f) => if Unreachable(f) then Trace([a], Returned) else Trace([a], Raised(f))
    case Delivered => Trace([a], Returned)
  }

  /**
   * `reply_photo` on the downloaded file at `path`. A photo that cannot be
   * decoded raises before anything is sent; a decoded one is answered by
   * `ReplyDecoded`. Either way no message reaches the administrator, the
   * file is removed exactly when it was sent, and a fault that escapes is
   * never a blocked or deleted account.
   */
  function ReplyPhoto(path: string, p: Platform): (t: Trace)
    ensures p.picture.Undecodable? ==> t == Trace([], Raised(Failure(p.picture.error)))
    ensures p.picture.Decoded? ==> t == ReplyDecoded(path, p, p.picture.width, p.picture.height)
    ensures SendFile(path) in t.actions <==>
      p.picture.Decoded? && Geometry.Layout(p.picture.width, p.picture.height).Place? && p.storage.Stored?
    ensures Delete(path) in t.actions <==> SendFile(path) in t.actions
    ensures CleansUp(t.actions)
    ensures !ReachesAdmin(t.actions)
    ensures t.exit.Raised? ==> !Unreachable(t.exit.fault)
  {
    match p.picture
    case Undecodable(e) => Trace([], Raised(Failure(e)))
    case Decoded(w, h) => ReplyDecoded(path, p, w, h)
  }

  /**
   * The rest of `reply_photo` once the photo decoded to `w` x `h`. A refused
   * photo gets the size text citing its dimensions and no file. An accepted
   * photo is stamped, saved back to `path`, sent as a file and then removed,
   * whatever the delivery did; a failed save raises before the send. Every
   * send follows `safe_respond`'s rule: a refusal from a blocked or deleted
   * account is swallowed, any other failure is raised. The pixels saved on
   * the accepted path are `Raster.Stamp` of the decoded photo; here only
   * whether the save succeeded matters.
   */
  function ReplyDecoded(path: string, p: Platform, w: nat, h: nat): (t: Trace)
    ensures Geometry.Layout(w, h).TooLarge? ==>
      t.actions == [SendText(Sender, Messages.TooLargeText(w, h))] &&
      t.exit == AfterSend(p.deliver(SendText(Sender, Messages.TooLargeText(w, h))))
    ensures Geometry.Layout(w, h).TooSmall? ==>
      t.actions == [SendText(Sender, Messages.TooSmallText(w, h))] &&
      t.exit == AfterSend(p.deliver(SendText(Sender, Messages.TooSmallText(w, h))))
    ensures Geometry.Layout(w, h).Place? && p.storage.StoreFailed? ==>
      t == Trace([], Raised(Failure(p.storage.error)))
    ensures SendFile(path) in t.actions <==> Geometry.Layout(w, h).Place? && p.storage.Stored?
    ensures SendFile(path) in t.actions ==> t.actions == [SendFile(path), Delete(path)]
    ensures SendFile(path) in t.actions ==> t.exit == AfterSend(p.deliver(SendFile(path)))
    ensures Delete(path) in t.actions <==> SendFile(path) in t.actions
    ensures CleansUp(t.actions)
    ensures !ReachesAdmin(t.actions)
    ensures t.exit.Raised? ==> !Unreachable(t.exit.fault)
  {
    match Geometry.Layout(w, h)
    case TooLarge(_, _) => SafeRespond(Messages.TooLargeText(w, h), p)
    case TooSmall(_, _) => SafeRespond(Messages.TooSmallText(w, h), p)
    case Place(_, _, _) =>
      match p.storage
      case StoreFailed(e) => Trace([], Raised(Failure(e)))
      case Stored => SendAndRemove(path, p)
  }

  /**
   * The `try`/`finally` around `send_file`: the file is sent and then removed
   * whatever the delivery did; a blocked or deleted account is swallowed, any
   * other failure is raised after the removal.
   */
  function SendAndRemove(path: string, p: Platform): (t: Trace)
    ensures t.actions == [SendFile(path), Delete(path)]
    ensures t.exit == AfterSend(p.deliver(SendFile(path)))
  {
    var send := SendFile(path);
    var exit := match p.deliver(send)
      case Refused(f) => if Unreachable(f) then Returned else Raised(f)
      case Delivered => Returned;
    Trace([send, Delete(path)], exit)
  }

  /**
   * The body of `start_handler`: fetch the person's profile photo, stamp and
   * return it if there is one (a missing avatar is not an error), then always
   * close with the hint inviting them to send any image. Only an exception
   * raised before the hint keeps it from being sent.
   */
  function StartFlow(p: Platform): (t: Trace)
    ensures p.download.DownloadFailed? ==> t == Trace([], Raised(Failure(p.download.error)))
    ensures p.download.NothingToDownload? ==> t.actions == [SendText(Sender, Messages.Hint)]
    ensures p.download.NothingToDownload? ==>
      (var dv := p.deliver(SendText(Sender, Messages.Hint)); t.exit == if Fails(dv) then Raised(dv.fault) else Returned)
    ensures p.download.Downloaded? && ReplyPhoto(p.download.path, p).exit.Raised? ==>
      t == ReplyPhoto(p.download.path, p)
    ensures p.download.Downloaded? && ReplyPhoto(p.download.path, p).exit.Returned? ==>
      t.actions == ReplyPhoto(p.download.path, p).actions + [SendText(Sender, Messages.Hint)]
      && (var dv := p.deliver(SendText(Sender, Messages.Hint)); t.exit == if Fails(dv) then Raised(dv.fault) else Returned)
    ensures t.exit.Returned? ==> |t.actions| >= 1 && t.actions[|t.actions| - 1] == SendText(Sender, Messages.Hint)
    ensures SendText(Sender, Messages.Hint) !in t.actions ==> t.exit.Raised?
    ensures p.download.Downloaded? ==> ReplyPhoto(p.download.path, p).actions <= t.actions
    ensures CleansUp(t.actions)
    ensures !ReachesAdmin(t.actions)
    ensures t.exit.Raised? ==> !Unreachable(t.exit.fault)
  {
    match p.download
    case DownloadFailed(e) => Trace([], Raised(Failure(e)))
    case NothingToDownload => SafeRespond(Messages.Hint, p)
    case Downloaded(path) =>
      Then(ReplyPhoto(path, p), SafeRespond(Messages.Hint, p))
  }

  /**
   * The body of `image_handler`: download the photo attached to the message
   * and stamp it; when the download yields nothing, say that no photo was
   * found and do nothing else.
   */
  function ImageFlow(p: Platform): (t: Trace)
    ensures p.download.NothingToDownload? <==> SendText(Sender, Messages.NoPhoto) in t.actions
    ensures p.download.NothingToDownload? ==> t.actions == [SendText(Sender, Messages.NoPhoto)]
    ensures p.download.NothingToDownload? ==>
      (var dv := p.deliver(SendText(Sender, Messages.NoPhoto)); t.exit == if Fails(dv) then Raised(dv.fault) else Returned)
    ensures p.download.Downloaded? ==> t == ReplyPhoto(p.download.path, p)
    ensures p.download.DownloadFailed? ==> t == Trace([], Raised(Failure(p.download.error)))
    ensures CleansUp(t.actions)
    ensures !ReachesAdmin(t.actions)
    ensures t.exit.Raised? ==> !Unreachable(t.exit.fault)
  {
    match p.download
    case DownloadFailed(e) => Trace([], Raised(Failure(e)))
    case NothingToDownload => SafeRespond(Messages.NoPhoto, p)
    case Downloaded(path) => ReplyPhoto(path, p)
  }

  /**
   * `log_on_error` around a handler that produced `t`. A handler that returns
   * is left untouched. One that raises is followed by the truncated report to
   * the administrator and then, if that was delivered, by the apology to the
   * person; the original fault is raised again unless one of these two sends
   * raised a fault of its own (a swallowed apology refusal does not).
   */
  function LogOnError(t: Trace, p: Platform, d: Diagnostics): (w: Trace)
    ensures t.exit.Returned? ==> w == t
    ensures t.exit.Raised? ==> |w.actions| > |t.actions| && w.actions[..|t.actions|] == t.actions
    ensures t.exit.Raised? ==> w.exit.Raised?
    ensures t.exit.Raised? ==>
      w.actions[|t.actions|] == SendText(Admin, Report.AdminReport(d.describe(t.exit.fault), d.traceback(t.exit.fault), d.event))
    ensures t.exit.Raised? && p.deliver(w.actions[|t.actions|]).Delivered? ==>
      w.actions == t.actions + [w.actions[|t.actions|], SendText(Sender, Messages.Apology)]
    ensures t.exit.Raised? && p.deliver(w.actions[|t.actions|]).Delivered? ==>
      w.exit == if Fails(p.deliver(SendText(Sender, Messages.Apology))) then Raised(p.deliver(SendText(Sender, Messages.Apology)).fault) else t.exit
    ensures t.exit.Raised? && p.deliver(w.actions[|t.actions|]).Refused? ==>
      |w.actions| == |t.actions| + 1 && w.exit.fault == p.deliver(w.actions[|t.actions|]).fault
    ensures CleansUp(t.actions) ==> CleansUp(w.actions)
    ensures !ReachesAdmin(t.actions) ==> (ReachesAdmin(w.actions) <==> t.exit.Raised?)
  {
    match t.exit
    case Returned => t
    case Raised(f) =>
      var report := SendText(Admin, Report.AdminReport(d.describe(f), d.traceback(f), d.event));
      match p.deliver(report)
      case Refused(g) =>
        assert CleansUp(t.actions) ==> CleansUp(t.actions + [report]) by {
          if CleansUp(t.actions) { CleansUpAppend(t.actions, [report]); }
        }
        assert (t.actions + [report])[|t.actions|] == report;
        Trace(t.actions + [report], Raised(g))
      case Delivered =>
        var apology := SafeRespond(Messages.Apology, p);
        assert t.actions + [report] + apology.actions == t.actions + ([report] + apology.actions);
        assert CleansUp(t.actions) ==> CleansUp(t.actions + [report] + apology.actions) by {
          if CleansUp(t.actions) { CleansUpAppend(t.actions, [report] + apology.actions); }
        }
        assert (t.actions + [report] + apology.actions)[|t.actions|] == report;
        Trace(t.actions + [report] + apology.actions, if apology.exit.Raised? then apology.exit else t.exit)
  }

  /**
   * The registered start handler: the start flow wrapped in the error
   * reporter. The administrator is told, and the handler raises, exactly
   * when the flow raised; every sent file is removed right after.
   */
  function HandleStart(p: Platform, d: Diagnostics): (t: Trace)
    ensures ReachesAdmin(t.actions) <==> StartFlow(p).exit.Raised?
    ensures t.exit.Raised? <==> StartFlow(p).exit.Raised?
    ensures StartFlow(p).actions <= t.actions
    ensures CleansUp(t.actions)
  {
    LogOnError(StartFlow(p), p, d)
  }

  /**
   * The registered image handler: the image flow wrapped in the error
   * reporter, with the same guarantees as the start handler.
   */
  function HandleImage(p: Platform, d: Diagnostics): (t: Trace)
    ensures ReachesAdmin(t.actions) <==> ImageFlow(p).exit.Raised?
    ensures t.exit.Raised? <==> ImageFlow(p).exit.Raised?
    ensures ImageFlow(p).actions <= t.actions
    ensures CleansUp(t.actions)
  {
    LogOnError(ImageFlow(p), p, d)
  }
}
