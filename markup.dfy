/**
 * A markup document as the asset rewrite pass sees it: the sequence of elements
 * its selectors reach, in document order. Element syntax is not modelled.
 */
module Markup {
  import opened Wrappers

  datatype Element =
    /** `<link rel=... href=...>`; `ignored` is the presence of the `wcm-ignore` attribute. */
    | Link(rel: string, href: Option<string>, ignored: bool)
    /** `<script src=...>body</script>`; `body` is the text of the first child node, when there is one. */
    | Script(src: Option<string>, body: Option<string>, ignored: bool)
    /** `<wcm-link rel=... for=... path=...>`, the placeholder for an external import. */
    | WcmLink(linkRel: string, linkFor: string, linkPath: string)
    /** `<wcm-script for=... path=...>`, the placeholder for a script file; `for` is absent for a local one. */
    | WcmScript(scriptFor: Option<string>, scriptPath: string)
    /** Any other node. */
    | Other
  {
    /** Matched by `link[rel='import']` and not by `[wcm-ignore]`. */
    predicate IsImport() {
      Link? && rel == "import" && !ignored
    }

    /** Matched by `script` and not by `[wcm-ignore]`. */
    predicate IsScript() {
      Script? && !ignored
    }
  }
}
