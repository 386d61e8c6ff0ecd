/**
 The deployment configuration: built from the process environment (account and
 region, and a bucket name derived from both), then validated for presence. Validation
 fails, naming every empty field in declaration order, or returns normally. It only
 reads the configuration, which is an immutable value here.
 */
module EnvConfig {
  import opened Text

  datatype Config = Config(awsAccount: string, awsRegion: string, bucketName: string)

  /** The configuration's fields, in declaration order. */
  datatype Field = AwsAccount | AwsRegion | BucketName

  const Fields: seq<Field> := [AwsAccount, AwsRegion, BucketName]

  function FieldName(f: Field): (name: string) {
    match f
    case AwsAccount => "AWS_ACCOUNT"
    case AwsRegion => "AWS_REGION"
    case BucketName => "BUCKET_NAME"
  }

  function Rank(f: Field): (rank: nat) {
    match f
    case AwsAccount => 0
    case AwsRegion => 1
    case BucketName => 2
  }

  function Value(c: Config, f: Field): (value: string) {
    match f
    case AwsAccount => c.awsAccount
    case AwsRegion => c.awsRegion
    case BucketName => c.bucketName
  }

  const BucketPrefix := "file-sharing-bucket-"

  /** `process.env[key] || ""`. */
  function Variable(env: map<string, string>, key: string): (v: string)
    ensures v == "" <==> key !in env || env[key] == ""
    ensures v != "" ==> v == env[key]
  {
    if key in env then env[key] else ""
  }

  /** `getEnvConfig`: account and region from the environment, unset meaning "", and
      the bucket named after both. */
  function GetEnvConfig(env: map<string, string>): (c: Config)
    ensures c.awsAccount == Variable(env, "AWS_ACCOUNT")
    ensures c.awsRegion == Variable(env, "AWS_REGION")
    ensures BucketPrefix <= c.bucketName
    ensures c.bucketName[|BucketPrefix|..] == c.awsAccount + "-" + c.awsRegion
  {
    var account := Variable(env, "AWS_ACCOUNT");
    var region := Variable(env, "AWS_REGION");
    Config(account, region, BucketPrefix + account + "-" + region)
  }

  /** The names of the empty fields, in field order. */
  function Missing(c: Config): (names: seq<Field>)
    ensures forall f :: f in names <==> Value(c, f) == ""
    ensures forall i, j :: 0 <= i < j < |names| ==> Rank(names[i]) < Rank(names[j])
  {
    (if c.awsAccount == "" then [AwsAccount] else [])
    + (if c.awsRegion == "" then [AwsRegion] else [])
    + (if c.bucketName == "" then [BucketName] else [])
  }

  /** The two properties of `Missing` determine it: any list of exactly the empty
      fields, in field order, is that list. */
  lemma {:induction false} MissingIsDetermined(c: Config, names: seq<Field>)
    requires forall f :: f in names <==> Value(c, f) == ""
    requires forall i, j :: 0 <= i < j < |names| ==> Rank(names[i]) < Rank(names[j])
    ensures names == Missing(c)
  {
    var m := Missing(c);
    SortedByRankIsDetermined(names, m);
  }

  /** Two lists of fields strictly ordered by rank with the same members are equal. */
  lemma {:induction false} SortedByRankIsDetermined(a: seq<Field>, b: seq<Field>)
    requires forall i, j :: 0 <= i < j < |a| ==> Rank(a[i]) < Rank(a[j])
    requires forall i, j :: 0 <= i < j < |b| ==> Rank(b[i]) < Rank(b[j])
    requires forall f :: f in a <==> f in b
    ensures a == b
    decreases |a| + |b|
  {
    // An empty list can only match an empty list.
    assert |a| > 0 ==> a[0] in b;
    assert |b| > 0 ==> b[0] in a;
    if |a| > 0 && |b| > 0 {
      // The heads are the members of least rank, so they agree.
      assert a[0] in b;
      assert b[0] in a;
      var i :| 0 <= i < |b| && b[i] == a[0];
      var j :| 0 <= j < |a| && a[j] == b[0];
      if i != 0 && j != 0 {
        // Each head would outrank the other.
        assert false;
      }
      assert a[0] == b[0];
      forall f ensures f in a[1..] <==> f in b[1..] {
        if f in a[1..] {
          var k :| 0 <= k < |a| - 1 && a[1..][k] == f;
          assert a[k + 1] == f && f in a && f in b;
          assert Rank(a[0]) < Rank(a[k + 1]);
          var k' :| 0 <= k' < |b| && b[k'] == f;
          assert b[1..][k' - 1] == f;
        }
        if f in b[1..] {
          var k :| 0 <= k < |b| - 1 && b[1..][k] == f;
          assert b[k + 1] == f && f in b && f in a;
          assert Rank(b[0]) < Rank(b[k + 1]);
          var k' :| 0 <= k' < |a| && a[k'] == f;
          assert a[1..][k' - 1] == f;
        }
      }
      SortedByRankIsDetermined(a[1..], b[1..]);
      assert a == [a[0]] + a[1..] && b == [b[0]] + b[1..];
    }
  }

  function Names(fields: seq<Field>): (names: seq<string>)
    ensures |names| == |fields|
    ensures forall i :: 0 <= i < |fields| ==> names[i] == FieldName(fields[i])
  {
    if |fields| == 0 then [] else [FieldName(fields[0])] + Names(fields[1..])
  }

  const MissingPrefix := "Missing required environment variables: "

  /** Whether validation returns normally or throws an `Error` with this message. */
  datatype Validation = Valid | Invalid(message: string)

  /** `validateEnvConfig`. */
  function Validate(c: Config): (v: Validation)
    ensures v.Invalid? <==> (c.awsAccount == "" || c.awsRegion == "" || c.bucketName == "")
    ensures v.Invalid? ==> v.message == MissingPrefix + Join(Names(Missing(c)), ", ")
  {
    var missing := Missing(c);
    if |missing| > 0 then Invalid(MissingPrefix + Join(Names(missing), ", ")) else Valid
  }

  /** A configuration from `getEnvConfig` always has a bucket name, so validation
      complains about account and region only, and passes exactly when both are set. */
  lemma BuiltConfigMissesOnlyAccountOrRegion(env: map<string, string>)
    ensures BucketName !in Missing(GetEnvConfig(env))
    ensures forall f :: f in Missing(GetEnvConfig(env)) ==> f == AwsAccount || f == AwsRegion
    ensures Validate(GetEnvConfig(env)).Valid? <==>
      Variable(env, "AWS_ACCOUNT") != "" && Variable(env, "AWS_REGION") != ""
  {
  }

  /** The message when both account and region are unset. */
  lemma BothMissingMessage(env: map<string, string>)
    requires "AWS_ACCOUNT" !in env && "AWS_REGION" !in env
    ensures Validate(GetEnvConfig(env)) ==
      Invalid(MissingPrefix + FieldName(AwsAccount) + ", " + FieldName(AwsRegion))
  {
    var c := GetEnvConfig(env);
    assert Missing(c) == [AwsAccount, AwsRegion];
    var names := Names([AwsAccount, AwsRegion]);
    assert names == [FieldName(AwsAccount)] + [FieldName(AwsRegion)];
    assert Join(names, ", ") == names[0] + ", " + Join(names[1..], ", ");
  }

  /** The bucket name reads back: after the prefix, the text before the first `-` is
      the account and the text after it the region, when the account has no `-`
      (account IDs are digits). */
  lemma BucketNameReadsBack(env: map<string, string>)
    requires '-' !in Variable(env, "AWS_ACCOUNT")
    ensures var c := GetEnvConfig(env);
      var rest := c.bucketName[|BucketPrefix|..];
      && FirstPiece(rest, '-') == Variable(env, "AWS_ACCOUNT")
      && rest[|FirstPiece(rest, '-')| + 1..] == Variable(env, "AWS_REGION")
  {
    var c := GetEnvConfig(env);
    var rest := c.bucketName[|BucketPrefix|..];
    assert rest == c.awsAccount + ['-'] + c.awsRegion;
    FirstPieceOfJoined(c.awsAccount, '-', c.awsRegion);
  }

  /** Hence the derivation loses nothing: equal bucket names come from equal
      account and region. */
  lemma BucketNameDeterminesAccountAndRegion(env1: map<string, string>, env2: map<string, string>)
    requires '-' !in Variable(env1, "AWS_ACCOUNT") && '-' !in Variable(env2, "AWS_ACCOUNT")
    requires GetEnvConfig(env1).bucketName == GetEnvConfig(env2).bucketName
    ensures GetEnvConfig(env1) == GetEnvConfig(env2)
  {
    BucketNameReadsBack(env1);
    BucketNameReadsBack(env2);
  }
}
