/** The three operations of `ImageService` that call the store: `uploadImage`,
    `uploadBase64Image` and `deleteImage`, as methods on the bucket they change. */
module ImageStore {
  import opened JsText
  import opened ImageConfig
  import opened ImageService
  import opened S3Url

  /** An object in the bucket: its body and the content type it was put with. */
  datatype StoredObject = StoredObject(body: seq<byte>, contentType: string)

  /** The configured S3 bucket, as the objects it holds by key. Each store call's outcome
      is a parameter: a call that throws leaves the bucket as it was. */
  class ImageBucket {
    const cfg: Config
    var objects: map<string, StoredObject>

    constructor (cfg: Config, objects: map<string, StoredObject>)
      ensures this.cfg == cfg && this.objects == objects
    {
      this.cfg := cfg;
      this.objects := objects;
    }

    /** `PutObjectCommand` followed by the success result: the object is stored under its
        key, replacing any object there, and the result carries the key and its URL. */
    method Put(put: PutRequest) returns (r: UploadResult)
      modifies this
      ensures objects == old(objects)[put.key := StoredObject(put.body, put.contentType)]
      ensures r == Uploaded(GenerateImageUrl(cfg, Some(put.key)), put.key)
    {
      objects := objects[put.key := StoredObject(put.body, put.contentType)];
      r := Uploaded(GenerateImageUrl(cfg, Some(put.key)), put.key);
    }

    /** `uploadImage(file)`. A rejected file and a put that throws change nothing; an
        accepted file whose put completes is stored under `GenerateImageKey`, and the URL
        returned reads back to that key. */
    method UploadImage(file: UploadedFile, uuid: string, outcome: StoreOutcome)
      returns (r: UploadResult)
      modifies this
      ensures match PrepareUpload(cfg, file, uuid)
        case Rejected(e) => r == UploadFailed(e) && objects == old(objects)
        case Ready(put) =>
          if outcome.Completed? then
            && r == Uploaded(GenerateImageUrl(cfg, Some(put.key)), put.key)
            && objects == old(objects)[put.key := StoredObject(put.body, put.contentType)]
          else
            && r == UploadFailed(StoreFailure(UploadFailureText(outcome.thrown)))
            && objects == old(objects)
      ensures r.Uploaded? ==>
        && r.imageKey == GenerateImageKey(cfg, file.originalName, uuid)
        && r.imageKey in objects
        && objects[r.imageKey] == StoredObject(file.buffer, file.mimetype)
        && ValidateImage(cfg, file.mimetype, file.size) == Valid
      ensures r.Uploaded? && r.imageKey != "" && !HasLineTerminator(r.imageKey)
              && cfg.region != "" && '/' !in cfg.region ==>
        ExtractKeyFromS3Url(cfg, r.imageUrl) == Some(r.imageKey)
    {
      var p := PrepareUpload(cfg, file, uuid);
      if p.Rejected? {
        r := UploadFailed(p.error);
        return;
      }
      if outcome.Threw? {
        r := UploadFailed(StoreFailure(UploadFailureText(outcome.thrown)));
        return;
      }
      r := Put(p.put);
      if r.imageKey != "" && !HasLineTerminator(r.imageKey) && cfg.region != ""
         && '/' !in cfg.region {
        ExtractAfterGenerate(cfg, r.imageKey);
      }
    }

    /** `uploadBase64Image(s)`. Any of the five rejections and a put that throws change
        nothing; otherwise the decoded bytes are stored under
        `folder + uuid + "." + subtype` with the data URL's media type. */
    method UploadBase64Image(input: Option<string>, decode: string -> Option<seq<byte>>,
                             uuid: string, outcome: StoreOutcome)
      returns (r: UploadResult)
      modifies this
      ensures match PrepareBase64Upload(cfg, input, decode, uuid)
        case Rejected(e) => r == UploadFailed(e) && objects == old(objects)
        case Ready(put) =>
          if outcome.Completed? then
            && r == Uploaded(GenerateImageUrl(cfg, Some(put.key)), put.key)
            && objects == old(objects)[put.key := StoredObject(put.body, put.contentType)]
          else
            && r == UploadFailed(StoreFailure(Base64FailureText(cfg, outcome.thrown)))
            && objects == old(objects)
      ensures r.Uploaded? ==>
        && IsValidBase64Image(cfg, input)
        && StartsWith(r.imageKey, cfg.folder + uuid + ".")
        && r.imageKey in objects
        && objects[r.imageKey].contentType in cfg.allowedTypes
        && !Exceeds(|objects[r.imageKey].body|, cfg.maxFileSize)
    {
      var p := PrepareBase64Upload(cfg, input, decode, uuid);
      if p.Rejected? {
        r := UploadFailed(p.error);
        return;
      }
      if outcome.Threw? {
        r := UploadFailed(StoreFailure(Base64FailureText(cfg, outcome.thrown)));
        return;
      }
      Base64AcceptedUpload(cfg, input, decode, uuid);
      Base64UploadAgreesWithValidity(cfg, input, decode, uuid);
      r := Put(p.put);
      assert r.imageKey == cfg.folder + uuid + "." + MimeExtension(ParseDataUrl(input.value).value.mimeType);
    }

    /** `deleteImage(key)`. The result is `DeleteVerdict`; only a delete that completes
        changes the bucket, by removing the key. A success therefore leaves no object under
        the key, unless the store reported `NoSuchKey` for a key it still lists. */
    method DeleteImage(key: Option<string>, outcome: StoreOutcome) returns (r: DeleteResult)
      modifies this
      ensures r == DeleteVerdict(key, outcome)
      ensures objects == if key.Some? && key.value != "" && outcome.Completed?
                         then old(objects) - {key.value} else old(objects)
      ensures r.DeleteSucceeded? && outcome.Completed? ==> key.value !in objects
      ensures r.DeleteFailed? ==> objects == old(objects)
    {
      r := DeleteVerdict(key, outcome);
      if key.Some? && key.value != "" && outcome.Completed? {
        objects := objects - {key.value};
      }
    }
  }
}
