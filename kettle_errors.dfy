/** The exceptions the connection utilities raise, one constructor per cause. */
module KettleErrors {

  datatype Error =
      /** A NumberFormatException from Integer.parseInt of this text, wrapped in a KettleException. */
    | NumberFormat(text: string)
      /** The `MongoUtils.Message.Error.EmptyHostsString` KettleException. */
    | EmptyHostsString
      /** The `MongoUtils.Message.Error.MalformedHost` KettleException for this comma-separated part. */
    | MalformedHost(part: string)
      /** The `MongoUtils.Message.Error.UnableToParsePortNumber` KettleException for this port text. */
    | UnableToParsePortNumber(port: string)
      /** An ArrayIndexOutOfBoundsException from indexing an empty split result. */
    | ArrayIndexOutOfBounds
      /** A NullPointerException from a replica-set member record without a `host` field. */
    | NullHost
}
