/**
 * The publish step of one run (src/main.rs:228-282): either write the page next to
 * the input file, never over an existing file, or upload it to the bucket under a
 * fresh key and report its public URL. The file system, the storage service and the
 * id generator are outside the model: the files are a map from path to content, the
 * service is a log of requests and a map of stored objects, and whether a write or an
 * upload succeeds is an input.
 */
module Publish {
  import opened Wrappers
  import RemoteNaming
  import LocalNaming
  import Page

  /** The `[s3]` section of the configuration (src/main.rs:15-22). */
  datatype StorageConfig = StorageConfig(
    domain: string, bucket: string, region: string, prefix: string,
    accessKeyId: string, secretAccessKey: string)

  /** Where the page goes: a local file, or an object under a key with a public URL. */
  datatype Target =
    | Local(path: string)
    | Remote(endpoint: string, bucket: string, key: string, url: string)

  /** One PUT request to the storage service. */
  datatype PutRequest = PutRequest(endpoint: string, bucket: string, key: string, body: string, contentType: string)

  /** What a run reports. */
  datatype Outcome =
    | Created(path: string)
    | AlreadyExists(path: string)
    | Uploaded(url: string)
    | WriteFailed(path: string)
    | UploadFailed(key: string)
  {
    /** The run ends with `Ok(())`. */
    predicate Succeeded() { Created? || AlreadyExists? || Uploaded? }
  }

  const HtmlContentType: string := "text/html"

  /**
   * The publish decision (src/main.rs:228-230, 244-247, 267-271, 282): local output goes to
   * the input path with extension "html"; otherwise the page is named by `id` under the
   * configured prefix and domain, at the configured region's endpoint. Key and URL read
   * back to the same id.
   */
  function Resolve(fileOutput: bool, source: string, config: StorageConfig, id: string): (t: Target)
    ensures t.Local? <==> fileOutput
    ensures t.Local? ==> t.path == LocalNaming.OutputPath(source)
    ensures t.Remote? ==> t.bucket == config.bucket
    ensures t.Remote? ==> RemoteNaming.EndpointRegion(t.endpoint) == Some(config.region)
    ensures t.Remote? ==> RemoteNaming.KeyId(t.key, config.prefix) == Some(id)
    ensures t.Remote? ==> RemoteNaming.UrlId(t.url, config.domain) == Some(id)
  {
    if fileOutput then Local(LocalNaming.OutputPath(source))
    else
      var key := RemoteNaming.ObjectKey(config.prefix, id);
      var url := RemoteNaming.PublicUrl(config.domain, id);
      var endpoint := RemoteNaming.Endpoint(config.region);
      RemoteNaming.ObjectKeyReadsBack(config.prefix, id, key);
      RemoteNaming.PublicUrlReadsBack(config.domain, id, url);
      RemoteNaming.EndpointReadsBack(config.region, endpoint);
      Remote(endpoint, config.bucket, key, url)
  }

  /**
   * Local output (src/main.rs:232-240): when `path` exists nothing is written and the run
   * still succeeds; otherwise the page is written there, which fails only if the write does.
   * No existing file ever changes and no path other than `path` appears.
   */
  function WriteIfAbsent(files: map<string, string>, path: string, content: string, writeSucceeds: bool)
    : (r: (map<string, string>, Outcome))
    ensures r.1.Succeeded() <==> path in files || writeSucceeds
    ensures (r.1.Created? || r.1.AlreadyExists? || r.1.WriteFailed?) && r.1.path == path
    ensures r.1 == AlreadyExists(path) <==> path in files
    ensures forall q :: q in files ==> q in r.0 && r.0[q] == files[q]
    ensures r.0.Keys <= files.Keys + {path}
    ensures r.1.Created? <==> path in r.0.Keys - files.Keys
    ensures r.1.Created? ==> r.0[path] == content
  {
    if path in files then (files, AlreadyExists(path))
    else if !writeSucceeds then (files, WriteFailed(path))
    else (files[path := content], Created(path))
  }

  /** A second local run after a successful one writes nothing, reports that the file
      already exists, and leaves the first run's content in place. */
  lemma SecondLocalRunKeepsFirst(files: map<string, string>, path: string, c1: string, c2: string, ok1: bool, ok2: bool)
    requires WriteIfAbsent(files, path, c1, ok1).1.Succeeded()
    ensures var after1 := WriteIfAbsent(files, path, c1, ok1).0;
      && WriteIfAbsent(after1, path, c2, ok2) == (after1, AlreadyExists(path))
      && after1[path] == (if path in files then files[path] else c1)
  {
  }

  /** The request the upload issues (src/main.rs:273-280). */
  function UploadRequest(config: StorageConfig, key: string, page: string): (req: PutRequest)
    ensures req.contentType == HtmlContentType && req.body == page
  {
    PutRequest(RemoteNaming.Endpoint(config.region), config.bucket, key, page, HtmlContentType)
  }

  /** The files, the storage service and the run that acts on them. */
  class Host {
    var files: map<string, string>
    var requests: seq<PutRequest>
    var objects: map<(string, string), string>

    constructor (files0: map<string, string>, objects0: map<(string, string), string>)
      ensures files == files0 && requests == [] && objects == objects0
    {
      files := files0;
      requests := [];
      objects := objects0;
    }

    /**
     * One run after the page has been rendered (src/main.rs:93-282): `fragment` is the
     * rendered HTML, `date` the date label and `id` the generated UUID text. Local mode
     * writes through `WriteIfAbsent` and sends nothing; remote mode leaves the files alone,
     * issues exactly one request and, when it is accepted, stores the page under the key.
     */
    method Run(source: string, fileOutput: bool, config: StorageConfig, fragment: string, date: string,
               id: string, writeSucceeds: bool, uploadSucceeds: bool) returns (outcome: Outcome)
      modifies this
      ensures var page := Page.Render(LocalNaming.Title(source), date, fragment);
        fileOutput ==>
          && (files, outcome) == WriteIfAbsent(old(files), LocalNaming.OutputPath(source), page, writeSucceeds)
          && requests == old(requests) && objects == old(objects)
      ensures var page := Page.Render(LocalNaming.Title(source), date, fragment);
        var key := RemoteNaming.ObjectKey(config.prefix, id);
        !fileOutput ==>
          && files == old(files)
          && requests == old(requests) + [UploadRequest(config, key, page)]
          && objects == (if uploadSucceeds then old(objects)[(config.bucket, key) := page] else old(objects))
          && outcome == (if uploadSucceeds then Uploaded(RemoteNaming.PublicUrl(config.domain, id)) else UploadFailed(key))
    {
      var title := LocalNaming.Title(source);
      var page := Page.Render(title, date, fragment);
      var target := Resolve(fileOutput, source, config, id);
      match target {
        case Local(path) =>
          if path in files {
            outcome := AlreadyExists(path);
          } else if writeSucceeds {
            files := files[path := page];
            outcome := Created(path);
          } else {
            outcome := WriteFailed(path);
          }
        case Remote(endpoint, bucket, key, url) =>
          requests := requests + [PutRequest(endpoint, bucket, key, page, HtmlContentType)];
          if uploadSucceeds {
            objects := objects[(bucket, key) := page];
            outcome := Uploaded(url);
          } else {
            outcome := UploadFailed(key);
          }
      }
    }
  }

  /** Two local runs against the same input: the second writes nothing and reports that the
      file exists, and the file keeps the first run's page. */
  method PublishLocallyTwice(host: Host, source: string, config: StorageConfig, fragment: string,
                             date1: string, date2: string, id1: string, id2: string)
    returns (first: Outcome, second: Outcome)
    modifies host
    ensures first.Succeeded() && second == AlreadyExists(LocalNaming.OutputPath(source))
    ensures var out := LocalNaming.OutputPath(source);
      out in host.files
      && host.files[out] == (if out in old(host.files) then old(host.files)[out]
                             else Page.Render(LocalNaming.Title(source), date1, fragment))
    ensures host.requests == old(host.requests) && host.objects == old(host.objects)
  {
    first := host.Run(source, true, config, fragment, date1, id1, true, true);
    second := host.Run(source, true, config, fragment, date2, id2, true, true);
  }
}
