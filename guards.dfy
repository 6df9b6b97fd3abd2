/**
 * The route guards src/hoc/WithAuth.tsx and src/hoc/WithoutAuth.tsx: each
 * renders its page or redirects, according to whether someone is signed in.
 */
module Guards {
  import opened Js
  import opened Blogs

  /** What a guard renders: the wrapped page, or a redirect. */
  datatype Rendered = Page | Redirect(to: string)

  /** `WithAuth`: pages for signed-in users. */
  function WithAuth(userData: Option<User>): (r: Rendered)
    ensures r == Page <==> userData.Some?
    ensures r != Page ==> r == Redirect("/login")
  {
    if userData.Some? then Page else Redirect("/login")
  }

  /** `WithoutAuth`: pages for visitors (login, register). */
  function WithoutAuth(userData: Option<User>): (r: Rendered)
    ensures r == Page <==> userData.None?
    ensures r != Page ==> r == Redirect("/")
  {
    if userData.Some? then Redirect("/") else Page
  }

  /** Whatever the session, exactly one of the two guards shows its page. */
  lemma GuardsComplementary(userData: Option<User>)
    ensures (WithAuth(userData) == Page) != (WithoutAuth(userData) == Page)
  {
  }

  /** The guards look at whether someone is signed in, never at who. */
  lemma GuardsIgnoreWho(a: Option<User>, b: Option<User>)
    requires a.Some? == b.Some?
    ensures WithAuth(a) == WithAuth(b) && WithoutAuth(a) == WithoutAuth(b)
  {
  }
}
