/**
  The sharing document (io.cozy.sharings) as far as the replication engine
  reads it: its rules, its members and the credentials for talking to them;
  and the errors the engine reports.
*/
module Sharings {

  import opened Json

  /**
    A rule of a sharing: which documents are shared. With the
    referenced_by selector its values are "doctype/id" strings of the
    documents a file must be referenced by; otherwise, for files, the
    first value is the identifier of the shared directory.
  */
  datatype Rule = Rule(title: string, docType: string, selector: string, values: seq<string>)

  /** A member of a sharing, identified by the URL of its instance. */
  datatype Member = Member(instance: string)

  /** What an instance needs to talk to another one: the key for XorID and an access token. */
  datatype Credentials = Credentials(xorKey: seq<bv8>, accessToken: string)

  /**
    A sharing. On the owner's instance, members[0] is the owner itself and
    credentials[i] are the ones for members[i + 1]; on a recipient's
    instance, members[0] is the owner and credentials[0] its credentials.
  */
  datatype Sharing = Sharing(
    sid: string,
    owner: bool,
    rules: seq<Rule>,
    members: seq<Member>,
    credentials: seq<Credentials>)

  /** Rule.hasReferencedBy: the reference is one of the values of the rule. */
  predicate HasReferencedBy(rule: Rule, ref: DocReference) {
    ref.docType + "/" + ref.id in rule.values
  }

  /** Errors of the sharing engine, and the errors of the stores it calls. */
  datatype Error =
    | MissingID
    | Safety
    | FolderNotFound
    | InternalServerError
    | InvalidSharing
    | NotFound
    | StoreError(reason: string)
}
