/**
  How the generation routes read their options and shape their answer
  (hugging-face-server/app.py, lines 124-150 and 207-225), and how the
  download route those answers point at is matched and dispatched
  (lines 240-261).
*/
module Responses {
  import opened Wrappers
  import opened PyStr

  /** The form fields of a request, one value per key (`request.form.get` sees the first value). */
  type Form = map<string, string>

  /** `form.get(key, default)`. */
  function FormGet(form: Form, key: string, default: string): (v: string)
    ensures key in form ==> v == form[key]
    ensures key !in form ==> v == default
  {
    if key in form then form[key] else default
  }

  // ---------------------------------------------------------------------------
  // Boolean form flags

  /** `form.get(key, "true").lower() == "true"`. */
  function FormFlag(form: Form, key: string): (b: bool)
    ensures key !in form ==> b
  {
    Lower(FormGet(form, key, "true")) == "true"
  }

  /** The sixteen ways of writing `true` with either case in each position. */
  predicate SpellsTrue(v: string) {
    |v| == 4 && v[0] in "tT" && v[1] in "rR" && v[2] in "uU" && v[3] in "eE"
  }

  /** A flag given in the form is set exactly when its value is some spelling of `true`; nothing else (`1`, `yes`, `on`) counts. */
  lemma FormFlagSpellings(form: Form, key: string)
    requires key in form
    ensures FormFlag(form, key) <==> SpellsTrue(form[key])
  {
    var v := form[key];
    LowerEqualsWord(v, "true", "TRUE");
    if SpellsTrue(v) {
      assert forall i :: 0 <= i < 4 ==> v[i] == "true"[i] || v[i] == "TRUE"[i];
    }
  }

  /** The two flags the upload route reads from its form. */
  datatype GenerationFlags = GenerationFlags(removeBackground: bool, randomizeSeed: bool)

  /** `remove_background` and `randomize_seed`, each read with `FormFlag`. */
  function ReadFlags(form: Form): (f: GenerationFlags)
    ensures "remove_background" !in form ==> f.removeBackground
    ensures "randomize_seed" !in form ==> f.randomizeSeed
  {
    GenerationFlags(FormFlag(form, "remove_background"), FormFlag(form, "randomize_seed"))
  }

  /** Each flag is on unless the form gives it a value that is not a spelling of `true`. */
  lemma ReadFlagsMeaning(form: Form)
    ensures ReadFlags(form).removeBackground <==>
      "remove_background" !in form || SpellsTrue(form["remove_background"])
    ensures ReadFlags(form).randomizeSeed <==>
      "randomize_seed" !in form || SpellsTrue(form["randomize_seed"])
  {
    if "remove_background" in form {
      FormFlagSpellings(form, "remove_background");
    }
    if "randomize_seed" in form {
      FormFlagSpellings(form, "randomize_seed");
    }
  }

  // ---------------------------------------------------------------------------
  // Output format and the answer of a finished generation

  /** `form.get("output_format", "glb").lower()`. */
  function OutputFormat(form: Form): (f: string)
    ensures IsLower(f)
    ensures "output_format" !in form ==> f == "glb"
  {
    LowerIdempotent(FormGet(form, "output_format", "glb"));
    Lower(FormGet(form, "output_format", "glb"))
  }

  /** An OBJ export is asked for exactly when `output_format` is some spelling of `obj`; the default `glb` never asks. */
  lemma WantsObjSpellings(form: Form)
    ensures OutputFormat(form) == "obj" <==>
      "output_format" in form && |form["output_format"]| == 3 &&
      form["output_format"][0] in "oO" && form["output_format"][1] in "bB" && form["output_format"][2] in "jJ"
  {
    if "output_format" in form {
      var v := form["output_format"];
      LowerEqualsWord(v, "obj", "OBJ");
      if |v| == 3 && v[0] in "oO" && v[1] in "bB" && v[2] in "jJ" {
        assert forall i :: 0 <= i < 3 ==> v[i] == "obj"[i] || v[i] == "OBJ"[i];
      }
    }
  }

  /** The fixed start of every download path. */
  const DownloadPrefix: string := "/api/download/"

  /** `/api/download/{job_id}/{format}`. */
  function DownloadUrl(jobId: string, format: string): (u: string)
    ensures DownloadPrefix <= u && |u| > |DownloadPrefix| + |jobId|
    ensures u[|DownloadPrefix| + |jobId|..] == ['/'] + format
  {
    DownloadPrefix + jobId + "/" + format
  }

  /** The JSON body of a successful generation. */
  datatype GenerateResponse = GenerateResponse(
    jobId: string,
    status: string,
    glbUrl: string,
    objUrl: Option<string>)

  /**
    The answer of either generation route once the model exists, for the
    lower-cased output format: the GLB link always, the OBJ link only for `obj`.
  */
  function Respond(jobId: string, outputFormat: string): (r: GenerateResponse)
    ensures r.jobId == jobId && r.status == "completed"
    ensures r.glbUrl == DownloadUrl(jobId, "glb")
    ensures r.objUrl.Some? <==> outputFormat == "obj"
    ensures r.objUrl.Some? ==> r.objUrl.value == DownloadUrl(jobId, "obj")
  {
    GenerateResponse(jobId, "completed", DownloadUrl(jobId, "glb"),
      if outputFormat == "obj" then Some(DownloadUrl(jobId, "obj")) else None)
  }

  // ---------------------------------------------------------------------------
  // The download route

  /** What a URL segment matched by `<name>` may be: non-empty and free of `/`. */
  predicate IsSegment(s: string) {
    s != "" && '/' !in s
  }

  /**
    Matching a path against `/api/download/<job_id>/<format>`: the two
    placeholders take non-empty segments without `/`; any other path is no match.
  */
  function MatchDownloadRoute(path: string): (m: Option<(string, string)>)
    ensures m.Some? ==> IsSegment(m.value.0) && IsSegment(m.value.1)
    ensures m.Some? ==> path == DownloadUrl(m.value.0, m.value.1)
  {
    if |path| < |DownloadPrefix| || path[..|DownloadPrefix|] != DownloadPrefix then None
    else
      var rest := path[|DownloadPrefix|..];
      if '/' !in rest then None
      else
        var jobId := BeforeFirst(rest, '/');
        var format := rest[|jobId| + 1..];
        if jobId == "" || format == "" || '/' in format then None
        else
          DownloadPathSplits(path);
          Some((jobId, format))
  }

  /** A path that starts with the download prefix and has a `/` after it is the download URL of its two parts. */
  lemma DownloadPathSplits(path: string)
    requires |DownloadPrefix| <= |path| && path[..|DownloadPrefix|] == DownloadPrefix
    requires '/' in path[|DownloadPrefix|..]
    ensures var rest := path[|DownloadPrefix|..];
      var jobId := BeforeFirst(rest, '/');
      |jobId| < |rest| && path == DownloadUrl(jobId, rest[|jobId| + 1..])
  {
    var rest := path[|DownloadPrefix|..];
    StartsWithSplits(path, DownloadPrefix);
    BeforeFirstSplits(rest, '/');
    var jobId := BeforeFirst(rest, '/');
    var format := rest[|jobId| + 1..];
    assert path == DownloadPrefix + (jobId + ['/'] + format);
    assert DownloadPrefix + (jobId + ['/'] + format) == DownloadPrefix + jobId + "/" + format;
  }

  /** Every download URL built from two segments matches the route and gives them back. */
  lemma MatchDownloadUrl(jobId: string, format: string)
    requires IsSegment(jobId) && IsSegment(format)
    ensures MatchDownloadRoute(DownloadUrl(jobId, format)) == Some((jobId, format))
  {
    var path := DownloadUrl(jobId, format);
    var rest := jobId + ['/'] + format;
    assert path == DownloadPrefix + rest;
    assert path[..|DownloadPrefix|] == DownloadPrefix;
    assert path[|DownloadPrefix|..] == rest;
    BeforeFirstOfJoin(jobId, '/', format);
    assert rest[|jobId| + 1..] == format;
  }

  /** Where the download route looks for a matched `(job_id, format)`. */
  datatype DownloadTarget =
    | GlbFile(name: string)     // `{job_id}.glb` in the output folder
    | ObjDirectory(dir: string) // some `.obj` file in the folder `{job_id}`, in listing order
    | NotFound                  // 404 "File not found" (unknown format, or no route)

  /** The download route's choice of file for a request path. */
  function ServeDownload(path: string): (t: DownloadTarget)
    ensures t.GlbFile? ==> exists j :: path == DownloadUrl(j, "glb") && t.name == j + ".glb"
    ensures t.ObjDirectory? ==> path == DownloadUrl(t.dir, "obj")
  {
    match MatchDownloadRoute(path)
    case None => NotFound
    case Some((jobId, format)) =>
      if format == "glb" then GlbFile(jobId + ".glb")
      else if format == "obj" then ObjDirectory(jobId)
      else NotFound
  }

  /**
    Serving a download URL built from a job id: `glb` names `{job_id}.glb`,
    `obj` names the job's folder, and any other format is not found.
  */
  lemma ServeDownloadOfUrl(jobId: string, format: string)
    requires IsSegment(jobId)
    ensures ServeDownload(DownloadUrl(jobId, format)) ==
      if format == "glb" then GlbFile(jobId + ".glb")
      else if format == "obj" then ObjDirectory(jobId)
      else NotFound
  {
    MatchUrlOfJob(jobId, format);
  }

  /** A download URL whose job id is a segment matches exactly when its format is a segment too. */
  lemma MatchUrlOfJob(jobId: string, format: string)
    requires IsSegment(jobId)
    ensures MatchDownloadRoute(DownloadUrl(jobId, format)) ==
      if IsSegment(format) then Some((jobId, format)) else None
  {
    var path := DownloadUrl(jobId, format);
    var rest := jobId + ['/'] + format;
    assert path[..|DownloadPrefix|] == DownloadPrefix;
    assert path[|DownloadPrefix|..] == rest;
    BeforeFirstOfJoin(jobId, '/', format);
    assert rest[|jobId| + 1..] == format;
  }

  /**
    The links a generation answers with lead back to what it wrote: the GLB
    link to `{job_id}.glb`, the OBJ link to the folder named after the job.
  */
  lemma ResponseLinksResolve(jobId: string, outputFormat: string)
    requires IsSegment(jobId)
    ensures ServeDownload(Respond(jobId, outputFormat).glbUrl) == GlbFile(jobId + ".glb")
    ensures Respond(jobId, outputFormat).objUrl.Some? ==>
      ServeDownload(Respond(jobId, outputFormat).objUrl.value) == ObjDirectory(jobId)
  {
    MatchDownloadUrl(jobId, "glb");
    MatchDownloadUrl(jobId, "obj");
  }

  /** The upload route's answer, from the job id and the request form. */
  function RespondToUpload(jobId: string, form: Form): (r: GenerateResponse)
    ensures r.objUrl.Some? <==> "output_format" in form && Lower(form["output_format"]) == "obj"
    ensures r.glbUrl == DownloadUrl(jobId, "glb")
  {
    Respond(jobId, OutputFormat(form))
  }
}
