/**
 * The records the pages exchange with the server: the signed-in user kept in
 * the session (`IUser` of src/redux/userSlice.ts) and a blog post (`IBlog` of
 * src/interface/userInterface.ts, with the fields the pages read).
 */
module Blogs {
  import opened Js

  datatype User = User(id: string, name: string, email: string, password: string)

  datatype Author = Author(id: string, name: string, email: string)

  /** A blog post. Dates are timestamps in milliseconds; `None` stands for a
      missing (or empty) date string, and `image` for the cover's URL. */
  datatype Blog = Blog(
    id: Option<string>,
    title: string,
    content: string,
    author: Option<Author>,
    image: Option<string>,
    tags: seq<string>,
    createdAt: Option<int>,
    updatedAt: Option<int>)
}
