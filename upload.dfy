/**
 * upload_to_s3: best-effort copy of a local backup into an S3 bucket.
 */
module Upload {
  import opened Wrappers
  import opened Environment
  import opened Names

  const AccessKeyVar := "AWS_ACCESS_KEY_ID"
  const SecretKeyVar := "AWS_SECRET_ACCESS_KEY"
  const BucketVar := "AWS_BUCKET_NAME"

  /**
   * What an upload attempt came to: skipped for want of credentials, failed
   * in the S3 client, or stored the local file `source` under `key` in `bucket`.
   */
  datatype UploadOutcome = Skipped | Failed | Stored(bucket: string, key: string, source: string)
  {
    /** The boolean upload_to_s3 returns. */
    predicate Succeeded()
    {
      Stored?
    }
  }

  /** all([AWS_ACCESS_KEY, AWS_SECRET_KEY, AWS_BUCKET]) */
  predicate CredentialsConfigured(config: Config)
  {
    && IsSet(GetEnv(config, AccessKeyVar))
    && IsSet(GetEnv(config, SecretKeyVar))
    && IsSet(GetEnv(config, BucketVar))
  }

  /**
   * upload_to_s3(filename). `transportOk` says whether creating the client
   * and the one upload_file call go through; any exception there is caught.
   */
  function UploadToS3(config: Config, filename: string, transportOk: bool): (r: UploadOutcome)
    ensures !CredentialsConfigured(config) ==> r == Skipped
    ensures r.Succeeded() <==> CredentialsConfigured(config) && transportOk
    ensures r.Stored? ==> r.source == filename && r.key == RemotePrefix + Basename(filename)
    ensures r.Stored? ==> Some(r.bucket) == GetEnv(config, BucketVar)
  {
    if !CredentialsConfigured(config) then Skipped
    else if !transportOk then Failed
    else Stored(config[BucketVar], RemoteKey(filename), filename)
  }
}
