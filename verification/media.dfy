/**
 * One uploaded item and how it is built from a browser file once the
 * file's metadata probe has answered.
 */
module Media {
  import opened Optional
  import opened Strings
  import opened Rounding

  datatype Kind = Audio | Video

  /** A file as the browser hands it over: a display name and a declared MIME type, possibly absent. */
  datatype RawFile = RawFile(name: string, declaredType: Option<string>)

  type Seconds = r: real | r >= 0.0

  /** What probing a file's media metadata reports. */
  datatype Probe =
    | Loaded(duration: Seconds)  // metadata loaded and the duration is a finite number
    | NonFinite                  // metadata loaded but the duration is NaN or infinite
    | Failed                     // the media element raised an error

  /** One file of a resolved batch: the file, its probe outcome, and the id generated for it. */
  datatype Upload = Upload(file: RawFile, probe: Probe, id: string)

  /** A ledger entry; the duration is rounded to whole seconds once, when the entry is made. */
  datatype MediaEntry = MediaEntry(id: string, name: string, kind: Kind, durationSeconds: nat)

  /** Audio exactly when the declared type mentions "audio"; anything else, a missing type included, is video. */
  function KindOf(declared: Option<string>): (k: Kind)
    ensures k == Audio <==> declared.Some? && Occurs(declared.value, "audio")
    ensures declared.None? ==> k == Video
  {
    if declared.Some? && Includes(declared.value, "audio") then Audio else Video
  }

  lemma KindExamples()
    ensures KindOf(Some("audio/mpeg")) == Audio
    ensures KindOf(Some("video/mp4")) == Video
    ensures KindOf(Some("")) == Video
    ensures KindOf(None) == Video
  {
    assert OccursAt("audio/mpeg", "audio", 0);
    AbsentFirstChar("video/mp4", "audio");
  }

  /** The duration the probe resolves to: a failure and a non-finite duration both count as 0. */
  function ProbeSeconds(p: Probe): Seconds {
    match p
    case Loaded(d) => d
    case NonFinite => 0.0
    case Failed => 0.0
  }

  /** The entry made for one upload; the whole-second duration is `Math.round` of the probe's answer. */
  function MakeEntry(u: Upload): (e: MediaEntry)
    ensures e.id == u.id && e.name == u.file.name
    ensures e.kind == Audio <==> u.file.declaredType.Some? && Occurs(u.file.declaredType.value, "audio")
    ensures !u.probe.Loaded? ==> e.durationSeconds == 0
    ensures u.probe.Loaded? ==>
      e.durationSeconds as real - 0.5 <= u.probe.duration < e.durationSeconds as real + 0.5
  {
    MediaEntry(u.id, u.file.name, KindOf(u.file.declaredType), Round(ProbeSeconds(u.probe)))
  }
}
