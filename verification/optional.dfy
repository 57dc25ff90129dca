/** An optional value: `None` stands for the `undefined` / `null` of `maze.ts` and `store.ts`. */
module Optional {

  datatype Option<+T> = None | Some(value: T)
}
